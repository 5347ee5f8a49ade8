/** A buffered byte reader (bufio.Reader) over a finite source that ends in EOF or in an error. */
module Source {
  import opened ByteText

  /** What every read gives once the bytes are used up. */
  datatype Fault = Eof | Timeout | Broken

  class ByteReader {
    const data: Bytes
    const fault: Fault
    var pos: nat

    ghost predicate Valid()
      reads this
    {
      pos <= |data|
    }

    constructor (data: Bytes, fault: Fault)
      ensures Valid() && this.data == data && this.fault == fault && pos == 0
    {
      this.data, this.fault, pos := data, fault, 0;
    }

    ghost function Rest(): Bytes
      requires Valid()
      reads this
    {
      data[pos..]
    }

    /** `None` stands for the reader's `fault`. */
    method ReadByte() returns (b: Option<byte>)
      requires Valid()
      modifies this
      ensures Valid()
      ensures b == if old(pos) < |data| then Some(data[old(pos)]) else None
      ensures pos == if old(pos) < |data| then old(pos) + 1 else old(pos)
    {
      if pos == |data| {
        return None;
      }
      b := Some(data[pos]);
      pos := pos + 1;
    }

    /** Undoes the last successful read. */
    method UnreadByte()
      requires Valid() && 0 < pos
      modifies this
      ensures Valid() && pos == old(pos) - 1
    {
      pos := pos - 1;
    }
  }
}
