/** A disk with a write cache. Each file keeps the bytes that are certainly on the medium
    and the operations issued since its last `sync`; losing power keeps any subset of the
    latter. Deleting a file is immediate. */
module Disk {
  import opened Bytes

  datatype Op = Write(off: nat, bytes: seq<Byte>) | SetLen(len: nat)

  function Apply(data: seq<Byte>, op: Op): (r: seq<Byte>) {
    match op
    case Write(off, bytes) => WriteAt(data, off, bytes)
    case SetLen(len) => Resize(data, len)
  }

  function ApplyAll(data: seq<Byte>, ops: seq<Op>): (r: seq<Byte>) {
    if ops == [] then data else Apply(ApplyAll(data, ops[..|ops| - 1]), ops[|ops| - 1])
  }

  lemma ApplyAllSnoc(data: seq<Byte>, ops: seq<Op>, op: Op)
    ensures ApplyAll(data, ops + [op]) == Apply(ApplyAll(data, ops), op)
  {
    assert (ops + [op])[..|ops|] == ops;
  }

  datatype File = File(durable: seq<Byte>, pending: seq<Op>) {
    function Contents(): (r: seq<Byte>) { ApplyAll(durable, pending) }
  }

  /** The operations that survive a power cut. */
  ghost function Kept(ops: seq<Op>, keep: seq<bool>): (r: seq<Op>)
    requires |keep| == |ops|
  {
    if ops == [] then []
    else Kept(ops[..|ops| - 1], keep[..|ops| - 1]) + if keep[|ops| - 1] then [ops[|ops| - 1]] else []
  }

  ghost predicate SurvivesAs(f: File, image: seq<Byte>) {
    exists keep: seq<bool> | |keep| == |f.pending| :: image == ApplyAll(f.durable, Kept(f.pending, keep))
  }

  /** The main database file and its `-journal` companion. */
  datatype Disk = Disk(db: File, journal: Option<File>)

  datatype Step =
    | JournalOpen
    | JournalWrite(off: nat, bytes: seq<Byte>)
    | JournalSync
    | JournalDelete
    | DbWrite(off: nat, bytes: seq<Byte>)
    | DbSetLen(len: nat)
    | DbSync

  function Issue(f: File, op: Op): (r: File) { f.(pending := f.pending + [op]) }

  function Sync(f: File): (r: File) { File(f.Contents(), []) }

  function OnJournal(d: Disk, g: File -> File): (r: Disk) {
    match d.journal
    case None => d
    case Some(f) => d.(journal := Some(g(f)))
  }

  /** `create_or_open_write` keeps whatever an existing journal file holds. */
  function Do(d: Disk, s: Step): (r: Disk) {
    match s
    case JournalOpen => if d.journal.None? then d.(journal := Some(File([], []))) else d
    case JournalWrite(off, bytes) => OnJournal(d, f => Issue(f, Write(off, bytes)))
    case JournalSync => OnJournal(d, Sync)
    case JournalDelete => d.(journal := None)
    case DbWrite(off, bytes) => d.(db := Issue(d.db, Write(off, bytes)))
    case DbSetLen(len) => d.(db := Issue(d.db, SetLen(len)))
    case DbSync => d.(db := Sync(d.db))
  }

  function Run(d: Disk, steps: seq<Step>): (r: Disk) {
    if steps == [] then d else Do(Run(d, steps[..|steps| - 1]), steps[|steps| - 1])
  }

  /** Everything on the disk has reached the medium. */
  predicate AtRest(d: Disk) {
    d.db.pending == [] && (d.journal.Some? ==> d.journal.value.pending == [])
  }

  /** `after` is a disk that may be found when power comes back. */
  ghost predicate PowerCut(before: Disk, after: Disk) {
    && AtRest(after)
    && SurvivesAs(before.db, after.db.durable)
    && (before.journal.None? <==> after.journal.None?)
    && (before.journal.Some? ==> SurvivesAs(before.journal.value, after.journal.value.durable))
  }

  lemma {:induction false} RunConcat(d: Disk, a: seq<Step>, b: seq<Step>)
    ensures Run(d, a + b) == Run(Run(d, a), b)
    decreases |b|
  {
    if b == [] {
      assert a + b == a;
    } else {
      var i := |b| - 1;
      assert (a + b)[..|a + b| - 1] == a + b[..i];
      RunConcat(d, a, b[..i]);
    }
  }

  /** A property every operation keeps holds of whatever survives. */
  lemma {:induction false} SurvivorKeeps(f: File, image: seq<Byte>, p: seq<Byte> -> bool)
    requires SurvivesAs(f, image)
    requires p(f.durable)
    requires forall data, i :: p(data) && 0 <= i < |f.pending| ==> p(Apply(data, f.pending[i]))
    ensures p(image)
  {
    var keep: seq<bool> :| |keep| == |f.pending| && image == ApplyAll(f.durable, Kept(f.pending, keep));
    KeptKeeps(f.durable, f.pending, keep, p);
  }

  lemma {:induction false} KeptKeeps(data: seq<Byte>, ops: seq<Op>, keep: seq<bool>, p: seq<Byte> -> bool)
    requires |keep| == |ops| && p(data)
    requires forall data, i :: p(data) && 0 <= i < |ops| ==> p(Apply(data, ops[i]))
    ensures p(ApplyAll(data, Kept(ops, keep)))
  {
    if ops != [] {
      var n := |ops| - 1;
      forall data', i | p(data') && 0 <= i < n ensures p(Apply(data', ops[..n][i])) {
        assert ops[..n][i] == ops[i];
      }
      KeptKeeps(data, ops[..n], keep[..n], p);
      var rest := Kept(ops[..n], keep[..n]);
      if keep[n] {
        assert (rest + [ops[n]])[..|rest|] == rest;
      } else {
        assert rest + [] == rest;
      }
    }
  }

  /** The same for applying everything, which is what `sync` and ordinary reads see. */
  lemma {:induction false} AllKeep(data: seq<Byte>, ops: seq<Op>, p: seq<Byte> -> bool)
    requires p(data)
    requires forall data, i :: p(data) && 0 <= i < |ops| ==> p(Apply(data, ops[i]))
    ensures p(ApplyAll(data, ops))
  {
    if ops != [] {
      var n := |ops| - 1;
      forall data', i | p(data') && 0 <= i < n ensures p(Apply(data', ops[..n][i])) {
        assert ops[..n][i] == ops[i];
      }
      AllKeep(data, ops[..n], p);
    }
  }
}
