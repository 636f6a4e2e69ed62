/** The readers' view of an input in memory: past its end every byte reads as zero. */
module Contexts {
  import opened Bits
  import opened Inflate

  /** The four bytes at p as a number; zeros follow the file. */
  function Be32At(file: seq<byte>, p: nat): (v: nat)
    ensures v < 0x1_0000_0000
  {
    0x100_0000 * ByteAt(file, p) + 0x1_0000 * ByteAt(file, p + 1) + 256 * ByteAt(file, p + 2) + ByteAt(file, p + 3)
  }

  function Le16At(file: seq<byte>, p: nat): nat {
    ByteAt(file, p) + 256 * ByteAt(file, p + 1)
  }

  class Context {
    const file: seq<byte>
    var pos: nat

    constructor (file: seq<byte>)
      ensures this.file == file && pos == 0
    {
      this.file := file;
      pos := 0;
    }

    /** At the end reading goes on with zeros. */
    method Get8() returns (b: byte)
      modifies this
      ensures b == ByteAt(file, old(pos))
      ensures pos == if old(pos) < |file| then old(pos) + 1 else old(pos)
    {
      if pos < |file| {
        b := file[pos];
        pos := pos + 1;
      } else {
        b := 0;
      }
    }

    /** The number at position p, which the context has reached or which lies past the end. */
    method Get32be(ghost p: nat) returns (v: nat)
      requires AtOrPast(p)
      modifies this
      ensures v == Be32At(file, p) && AtOrPast(p + 4)
    {
      var a := Get8();
      var b := Get8();
      var c := Get8();
      var d := Get8();
      v := 0x100_0000 * a as int + 0x1_0000 * b as int + 256 * c as int + d;
    }

    /** The context stands at p, or stopped at or past the end of the file before p. */
    ghost predicate AtOrPast(p: nat)
      reads this
    {
      pos == p || |file| <= pos < p
    }

    method Byte(ghost p: nat) returns (b: byte)
      requires AtOrPast(p)
      modifies this
      ensures b == ByteAt(file, p) && AtOrPast(p + 1)
    {
      b := Get8();
    }

    /** Moves n bytes on; a count of 2^31 or more is negative as an int and moves to the end. */
    method Skip(n: nat, ghost p: nat)
      requires AtOrPast(p)
      modifies this
      ensures n < 0x8000_0000 ==> AtOrPast(p + n)
      ensures n >= 0x8000_0000 ==> AtOrPast(|file|)
    {
      if n >= 0x8000_0000 {
        pos := |file|;
      } else {
        pos := pos + n;
      }
    }

    /** Reads n bytes, if that many remain. */
    method Getn(n: nat, ghost p: nat) returns (ok: bool, bytes: seq<byte>)
      requires AtOrPast(p)
      modifies this
      ensures p <= |file| ==> (ok <==> p + n <= |file|)
      ensures ok ==> AtOrPast(p + n) && bytes == if p <= |file| then file[p..p + n] else []
    {
      if pos + n <= |file| {
        bytes := file[pos..pos + n];
        pos := pos + n;
        ok := true;
      } else {
        return false, [];
      }
    }

    /** A little-endian 16-bit number. */
    method Get16le(ghost p: nat) returns (v: nat)
      requires AtOrPast(p)
      modifies this
      ensures v == Le16At(file, p) && AtOrPast(p + 2)
    {
      var a := Get8();
      var b := Get8();
      v := a as int + 256 * b as int;
    }
  }
}
