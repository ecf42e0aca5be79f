/** The index cursor as an object: each method does what the stack machine says. */
module IndexCursorOps {
  import opened Bytes
  import opened Overflow
  import opened TablePage
  import opened IndexOrder
  import opened IndexTree
  import opened IndexScan
  import opened IndexSeek

  class IndexCursor {
    const pages: Pages
    const usable: nat
    const root: nat
    var stack: seq<Frame>
    var visited: nat

    constructor (source: Pages, usableSize: nat, rootPage: nat)
      ensures pages == source && usable == usableSize && root == rootPage && stack == [] && visited == 0
    {
      pages, usable, root, stack, visited := source, usableSize, rootPage, [], 0;
    }

    function State(): (c: Cursor)
      reads this
    {
      Cursor(stack, visited)
    }

    method Push(n: nat, desc: bool) returns (r: Result<(), PageError>)
      modifies this
      ensures (State(), r) == PushPage(pages, old(State()), n, desc)
    {
      hide ReadFrame;
      visited := visited + 1;
      if visited > MAX_PAGES_VISITED { return Err(TraversalTooLong); }
      match ReadFrame(pages, n, desc)
      case Err(e) => return Err(e);
      case Ok(f) => stack := stack + [f];
      r := Ok(());
    }

    method SetStep(step: nat)
      requires stack != []
      modifies this`stack
      ensures State() == At(old(State()), step)
    {
      var top := |stack| - 1;
      stack := stack[..top] + [stack[top].(step := step)];
    }

    method DecodeEntry(f: Frame, i: nat) returns (r: Result<Option<seq<Byte>>, PageError>)
      ensures (State(), r) == Yield(pages, usable, State(), f, i)
    {
      hide EntryAt;
      match EntryAt(pages, usable, f.buf, f.base, f.interior, i)
      case Err(e) => r := Err(e);
      case Ok(p) => r := Ok(Some(p));
    }

    method AdvanceUp() returns (r: Result<Option<seq<Byte>>, PageError>)
      modifies this
      ensures (State(), r) == Advance(pages, usable, old(State()))
    {
      hide PushPage, Yield, ChildOf;
      ghost var start := State();
      while true
        invariant Advance(pages, usable, State()) == Advance(pages, usable, start)
        decreases Budget(State()), |stack|
      {
        if stack == [] { return Ok(None); }
        var top := |stack| - 1;
        var f := stack[top];
        if f.step >= LastStep(f.interior, f.num) {
          stack := stack[..top];
        } else if !f.interior {
          SetStep(f.step + 1);
          r := DecodeEntry(f, f.step);
          return;
        } else {
          SetStep(f.step + 1);
          if f.step % 2 == 1 {
            r := DecodeEntry(f, (f.step - 1) / 2);
            return;
          }
          var child := ChildOf(f, f.step / 2);
          if child.Err? { return Err(child.error); }
          var pushed := Push(child.value, false);
          if pushed.Err? { return Err(pushed.error); }
        }
      }
    }

    method AdvanceDown() returns (r: Result<Option<seq<Byte>>, PageError>)
      modifies this
      ensures (State(), r) == AdvanceDesc(pages, usable, old(State()))
    {
      hide PushPage, Yield, ChildOf;
      ghost var start := State();
      while true
        invariant AdvanceDesc(pages, usable, State()) == AdvanceDesc(pages, usable, start)
        decreases Budget(State()), |stack|
      {
        if stack == [] { return Ok(None); }
        var top := |stack| - 1;
        var f := stack[top];
        if f.step == 0 {
          stack := stack[..top];
        } else {
          var a := f.step - 1;
          SetStep(a);
          if !f.interior {
            r := DecodeEntry(f, a);
            return;
          }
          if a % 2 == 1 {
            r := DecodeEntry(f, (a - 1) / 2);
            return;
          }
          var child := ChildOf(f, a / 2);
          if child.Err? { return Err(child.error); }
          var pushed := Push(child.value, true);
          if pushed.Err? { return Err(pushed.error); }
        }
      }
    }

    method First() returns (r: Result<Option<seq<Byte>>, PageError>)
      modifies this
      ensures (State(), r) == Start(pages, usable, root, false)
    {
      hide PushPage, Advance;
      stack, visited := [], 0;
      var pushed := Push(root, false);
      if pushed.Err? { return Err(pushed.error); }
      r := AdvanceUp();
    }

    method Last() returns (r: Result<Option<seq<Byte>>, PageError>)
      modifies this
      ensures (State(), r) == Start(pages, usable, root, true)
    {
      hide PushPage, AdvanceDesc;
      stack, visited := [], 0;
      var pushed := Push(root, true);
      if pushed.Err? { return Err(pushed.error); }
      r := AdvanceDown();
    }

    method SearchPage(f: Frame, target: Key) returns (r: Result<nat, SeekError>)
      ensures r == PageSearch(pages, usable, f, 0, f.num, target)
    {
      hide EntryAt, KeyOf, Below;
      var lo: nat, hi: nat := 0, f.num;
      while lo < hi
        invariant lo <= hi <= f.num && PageSearch(pages, usable, f, 0, f.num, target) ==
                  PageSearch(pages, usable, f, lo, hi, target)
        decreases hi - lo
      {
        var mid := lo + (hi - lo) / 2;
        var payload := EntryAt(pages, usable, f.buf, f.base, f.interior, mid);
        if payload.Err? { return Err(Page(payload.error)); }
        var key := KeyOf(payload.value);
        if key.Err? { return Err(key.error); }
        if !Below(key.value, target) { hi := mid; } else { lo := mid + 1; }
      }
      r := Ok(lo);
    }

    method SeekEntry(target: Key) returns (r: Result<Option<seq<Byte>>, SeekError>)
      modifies this
      ensures (State(), r) == Seek(pages, usable, root, target)
    {
      hide PushPage, PageSearch, ChildOf, Advance;
      stack, visited := [], 0;
      var pushed := Push(root, false);
      if pushed.Err? { return Err(Page(pushed.error)); }
      PushedSome(pages, Cursor([], 0), root);
      ghost var start := State();
      while true
        invariant stack != [] && SeekDown(pages, usable, State(), target) == SeekDown(pages, usable, start, target)
        decreases Budget(State())
      {
        var f := stack[|stack| - 1];
        var i := SearchPage(f, target);
        if i.Err? { return Err(i.error); }
        if !f.interior {
          SetStep(i.value);
          break;
        }
        SetStep(2 * i.value + 1);
        var child := ChildOf(f, i.value);
        if child.Err? { return Err(Page(child.error)); }
        PushedSome(pages, State(), child.value);
        pushed := Push(child.value, false);
        if pushed.Err? { return Err(Page(pushed.error)); }
      }
      var moved := AdvanceUp();
      match moved
      case Err(e) => r := Err(Page(e));
      case Ok(v) => r := Ok(v);
    }
  }

  lemma PushedSome(pages: Pages, c: Cursor, n: nat)
    ensures PushPage(pages, c, n, false).1.Ok? ==> PushPage(pages, c, n, false).0.stack != []
  {
  }
}
