/** The byte stream under the image loaders. The device behind it never fails. */
module Streams {
  import opened Wrappers
  import opened Bits

  class Stream {
    const contents: seq<Byte>
    var position: nat

    ghost predicate Valid()
      reads this
    {
      position <= |contents|
    }

    /** The bytes still to read. */
    ghost function Ahead(): seq<Byte>
      reads this
      requires Valid()
    {
      contents[position..]
    }

    constructor (contents: seq<Byte>)
      ensures Valid() && this.contents == contents && position == 0
    {
      this.contents := contents;
      position := 0;
    }

    method AtEnd() returns (r: bool)
      requires Valid()
      ensures r == (Ahead() == [])
    {
      r := position >= |contents|;
    }

    /** A read of nothing, or of more than there is, is an error that leaves the stream where it was. */
    method Read(size: nat) returns (r: Option<seq<Byte>>)
      requires Valid()
      modifies this
      ensures Valid()
      ensures if 0 < size <= |old(Ahead())|
              then r == Some(old(Ahead())[..size]) && position == old(position) + size && Ahead() == old(Ahead())[size..]
              else r == None && position == old(position)
    {
      if size == 0 {
        return None;
      }
      if size > |contents| - position {
        return None;
      }
      r := Some(contents[position..position + size]);
      assert contents[position..][..size] == contents[position..position + size];
      assert contents[position..][size..] == contents[position + size..];
      position := position + size;
    }

    method SeekTo(newPosition: nat) returns (ok: bool)
      requires Valid()
      modifies this
      ensures Valid()
      ensures ok == (newPosition <= |contents|)
      ensures position == if ok then newPosition else old(position)
    {
      ok := newPosition <= |contents|;
      if ok {
        position := newPosition;
      }
    }
  }
}
