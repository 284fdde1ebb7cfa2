/**
 * The 16-byte frame header, struct format `<ccHIQ`: magic 'C' and 'X', the
 * command (u16), the body length (u32) and the sequence (u64), little-endian,
 * followed by the body. Requests and responses share the layout.
 */
module Frames {
  import opened Optional
  import opened Wire

  const HeaderSize: nat := 16
  /** ASCII 'C' and 'X'. */
  const MagicC: Byte := 67
  const MagicX: Byte := 88

  /** The fields `_parseHeader` hands back: command, sequence, length. */
  datatype Header = Header(command: U16, sequence: U64, length: U32)

  /** A frame as a receiver sees it: the header and the body that follows. */
  datatype Frame = Frame(header: Header, body: seq<Byte>)

  /**
   * `Session._parseHeader`. Its argument is what `recv(16)` returned, so it is
   * never longer than 16 bytes. A short header is refused, and so is a header
   * whose FIRST magic byte is wrong AND whose SECOND is wrong too: the test is
   * an `and` of the two mismatches, so one wrong magic byte passes.
   */
  function ParseHeader(header: seq<Byte>): (r: Option<Header>)
    requires |header| <= HeaderSize
    ensures r.Some? <==> |header| == HeaderSize && (header[0] == MagicC || header[1] == MagicX)
  {
    if |header| < HeaderSize then None
    else if header[0] != MagicC && header[1] != MagicX then None
    else
      PowersOfByte();
      Some(Header(FromLE(header[2..4]), FromLE(header[8..16]), FromLE(header[4..8])))
  }

  /** The 16 header bytes `struct.pack('<ccHIQ', b'C', b'X', command, length, sequence)` produces. */
  function PackHeader(h: Header): (r: seq<Byte>)
    ensures |r| == HeaderSize
  {
    PowersOfByte();
    [MagicC, MagicX] + ToLE(h.command, 2) + ToLE(h.length, 4) + ToLE(h.sequence, 8)
  }

  /** The response frame `doResponse` sends: header with the body's length, then the body. */
  function PackFrame(command: U16, sequence: U64, data: seq<Byte>): (r: seq<Byte>)
    requires |data| < 0x1_0000_0000
    ensures |r| == HeaderSize + |data|
  {
    PackHeader(Header(command, sequence, |data|)) + data
  }

  /** A receiver's reading of one whole frame: a header that parses and exactly `length` body bytes. */
  function ParseFrame(f: seq<Byte>): (r: Option<Frame>)
    ensures r.Some? ==> |f| == HeaderSize + r.value.header.length && r.value.body == f[HeaderSize..]
  {
    if |f| < HeaderSize then None
    else match ParseHeader(f[..HeaderSize])
      case None => None
      case Some(h) => if |f| - HeaderSize == h.length then Some(Frame(h, f[HeaderSize..])) else None
  }

  /** Field by field, in plain arithmetic, what a header that parses decodes to. */
  lemma HeaderFields(header: seq<Byte>)
    requires |header| == HeaderSize && (header[0] == MagicC || header[1] == MagicX)
    ensures ParseHeader(header).Some?
    ensures ParseHeader(header).value.command == header[2] as int + 0x100 * header[3] as int
    ensures ParseHeader(header).value.length ==
      header[4] as int + 0x100 * header[5] as int + 0x1_0000 * header[6] as int + 0x100_0000 * header[7] as int
    ensures ParseHeader(header).value.sequence ==
      header[8] as int + 0x100 * header[9] as int + 0x1_0000 * header[10] as int
      + 0x100_0000 * header[11] as int + 0x1_0000_0000 * header[12] as int
      + 0x100_0000_0000 * header[13] as int + 0x1_0000_0000_0000 * header[14] as int
      + 0x100_0000_0000_0000 * header[15] as int
  {
    var h := header;
    LE2(h[2..4]);
    LE4(h[4..8]);
    LE4(h[8..12]);
    LE4(h[12..16]);
    assert h[8..16] == h[8..12] + h[12..16];
    FromLEAppend(h[8..12], h[12..16]);
    PowersOfByte();
  }

  lemma LE2(s: seq<Byte>)
    requires |s| == 2
    ensures FromLE(s) == s[0] as int + 0x100 * s[1] as int
  {
    FromLEAt(s, 0, 2); FromLEAt(s, 1, 2); FromLEAt(s, 2, 2);
    assert s[0..2] == s;
  }

  lemma LE4(s: seq<Byte>)
    requires |s| == 4
    ensures FromLE(s) == s[0] as int + 0x100 * s[1] as int + 0x1_0000 * s[2] as int + 0x100_0000 * s[3] as int
  {
    FromLEAt(s, 0, 4); FromLEAt(s, 1, 4); FromLEAt(s, 2, 4); FromLEAt(s, 3, 4); FromLEAt(s, 4, 4);
    assert s[0..4] == s;
  }

  /** Little-endian value of a concatenation: the high part is shifted by the low part's width. */
  lemma {:induction false} FromLEAppend(a: seq<Byte>, b: seq<Byte>)
    ensures FromLE(a + b) == FromLE(a) + Pow256(|a|) * FromLE(b)
  {
    if a == [] {
      assert a + b == b;
    } else {
      assert (a + b)[1..] == a[1..] + b;
      var x, p, y := FromLE(a[1..]), Pow256(|a| - 1), FromLE(b);
      var rest := FromLE(a[1..] + b);
      FromLEAppend(a[1..], b);
      ShiftDistributes(a[0] as int, x, p, y, rest);
      assert Pow256(|a|) == 256 * p;
    }
  }

  /** The arithmetic step of `FromLEAppend`: shifting by one byte distributes over the sum. */
  lemma ShiftDistributes(low: int, x: int, p: int, y: int, rest: int)
    requires rest == x + p * y
    ensures low + 256 * rest == (low + 256 * x) + (256 * p) * y
  {
  }

  /** One step of little-endian decoding on a slice. */
  lemma FromLEAt(s: seq<Byte>, i: nat, j: nat)
    requires i <= j <= |s|
    ensures i == j ==> FromLE(s[i..j]) == 0
    ensures i < j ==> FromLE(s[i..j]) == s[i] as int + 0x100 * FromLE(s[i + 1..j])
  {
    if i < j {
      assert s[i..j][1..] == s[i + 1..j];
    }
  }

  /** Parsing what `PackHeader` writes gives back its fields. */
  lemma ParsePackHeader(h: Header)
    ensures ParseHeader(PackHeader(h)) == Some(h)
  {
    var b := PackHeader(h);
    PowersOfByte();
    var front := [MagicC, MagicX] + ToLE(h.command, 2) + ToLE(h.length, 4);
    assert b == front + ToLE(h.sequence, 8);
    assert b[2..4] == ToLE(h.command, 2);
    assert b[4..8] == ToLE(h.length, 4);
    assert b[8..16] == ToLE(h.sequence, 8) by {
      assert b[8..16] == b[|front|..];
    }
    FromLEOfToLE(h.command, 2);
    FromLEOfToLE(h.length, 4);
    FromLEOfToLE(h.sequence, 8);
  }

  /** The converse: a header with both magic bytes right is what `PackHeader` writes for its fields. */
  lemma PackParseHeader(header: seq<Byte>)
    requires |header| == HeaderSize && header[0] == MagicC && header[1] == MagicX
    ensures ParseHeader(header).Some? && PackHeader(ParseHeader(header).value) == header
  {
    PowersOfByte();
    ToLEOfFromLE(header[2..4]);
    ToLEOfFromLE(header[4..8]);
    ToLEOfFromLE(header[8..16]);
    assert header == header[..2] + header[2..4] + header[4..8] + header[8..16];
  }

  /** A response frame parses back to the command, sequence and body it was packed from. */
  lemma {:induction false} FrameRoundTrip(command: U16, sequence: U64, data: seq<Byte>)
    requires |data| < 0x1_0000_0000
    ensures ParseFrame(PackFrame(command, sequence, data)) == Some(Frame(Header(command, sequence, |data|), data))
  {
    var f := PackFrame(command, sequence, data);
    assert f[..HeaderSize] == PackHeader(Header(command, sequence, |data|));
    assert f[HeaderSize..] == data;
    ParsePackHeader(Header(command, sequence, |data|));
  }

  /** The check lets a header through with only its first magic byte wrong ('Q', 'X', ...). */
  lemma OneWrongMagicAccepted()
    ensures ParseHeader([81, MagicX, 2, 0, 0, 0, 0, 0, 42, 0, 0, 0, 0, 0, 0, 0]) == Some(Header(2, 42, 0))
  {
    HeaderFields([81, MagicX, 2, 0, 0, 0, 0, 0, 42, 0, 0, 0, 0, 0, 0, 0]);
  }
}
