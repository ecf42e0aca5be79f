/** An open file, written in place. */
module Files {
  import opened Bytes

  class RawFile {
    var data: seq<Byte>

    constructor (d: seq<Byte>)
      ensures data == d
    {
      data := d;
    }

    method Write(off: nat, bytes: seq<Byte>)
      modifies this
      ensures data == WriteAt(old(data), off, bytes)
    {
      data := WriteAt(data, off, bytes);
    }
  }
}
