/** The chunked transfer coding (section 7.1 of RFC 9112), as the file extractor decodes it. */
module ChunkedCoding {
  import opened Text

  /** Done with the body and the number of bytes it took; Fails when the decoder returns false;
      Overflow when a size is so near 2^63 that the addition of 2 wraps around, the length check
      passes and the slice that follows panics. */
  datatype Decoded = Fails | Overflow | Done(body: string, used: nat)

  /** The size on a chunk's first line: hexadecimal, signed, up to a semicolon. */
  function LineSize(line: string): Option<int> {
    var i := IndexOf(line, ";");
    ParseInt(Trim(if i >= 0 then line[..i] else line), 16)
  }

  /** What the bytes at the start of a chunk say. */
  datatype Piece = Unfinished | TooBig | Last(used: nat) | Data(data: string, used: nat)

  function FirstPiece(b: string): (p: Piece)
    ensures p.Last? || p.Data? ==> 0 < p.used <= |b|
  {
    var j := IndexOf(b, CRLF);
    if j < 0 then Unfinished
    else
      match LineSize(b[..j])
      case None => Unfinished
      case Some(n) =>
        var pos := j + 2;
        if n < 0 then Unfinished
        else if n == 0 then if |b| < pos + 2 then Unfinished else Last(pos + 2)
        else if n + 2 > MAX_INT64 then TooBig
        else if |b| - pos < n + 2 then Unfinished
        else Data(b[pos..pos + n], pos + n + 2)
  }

  function Prepend(data: string, used: nat, d: Decoded): Decoded {
    if d.Done? then Done(data + d.body, used + d.used) else d
  }

  /** Decoding from the start of a chunk. */
  function Decode(b: string): (d: Decoded)
    ensures d.Done? ==> 0 < d.used <= |b|
    decreases |b|
  {
    match FirstPiece(b)
    case Unfinished => Fails
    case TooBig => Overflow
    case Last(used) => Done([], used)
    case Data(data, used) => Prepend(data, used, Decode(b[used..]))
  }

  /** The loop: one position that moves along the bytes, one buffer that grows. */
  method DecodeChunked(b: string) returns (d: Decoded)
    ensures d == Decode(b)
  {
    hide IndexOf, LineSize, Decode, Prepend;
    var out: string := [];
    var pos := 0;
    PrependNothing(Decode(b));
    assert b[0..] == b;
    while true
      invariant 0 <= pos <= |b|
      invariant Decode(b) == Prepend(out, pos, Decode(b[pos..]))
      decreases |b| - pos
    {
      ghost var from, before := b[pos..], out;
      DecodeStep(from, before, pos);
      var j := IndexOf(b[pos..], CRLF);
      if j < 0 {
        return Fails;
      }
      var line := b[pos..pos + j];
      assert from[..j] == line;
      var n := LineSize(line);
      if n.None? || n.value < 0 {
        return Fails;
      }
      pos := pos + j + 2;
      if n.value == 0 {
        if |b| < pos + 2 {
          return Fails;
        }
        return Done(out, pos + 2);
      }
      if n.value + 2 > MAX_INT64 {
        return Overflow;
      }
      if |b| - pos < n.value + 2 {
        return Fails;
      }
      var data := b[pos..pos + n.value];
      ghost var start := pos - j - 2;
      assert b[start..][j + 2..j + 2 + n.value] == b[start + j + 2..start + j + 2 + n.value];
      out := out + data;
      pos := pos + n.value + 2;
      assert FirstPiece(from) == Data(data, j + 2 + n.value + 2);
      assert b[pos..] == from[j + 2 + n.value + 2..];
    }
  }

  lemma PrependNothing(d: Decoded)
    ensures Prepend([], 0, d) == d
  {
    if d.Done? { assert [] + d.body == d.body; }
  }

  /** One step of the loop, with what came before it. */
  lemma DecodeStep(b: string, out: string, used: nat)
    ensures FirstPiece(b).Unfinished? ==> Prepend(out, used, Decode(b)) == Fails
    ensures FirstPiece(b).TooBig? ==> Prepend(out, used, Decode(b)) == Overflow
    ensures FirstPiece(b).Last? ==> Prepend(out, used, Decode(b)) == Done(out, used + FirstPiece(b).used)
    ensures FirstPiece(b).Data? ==>
      var p := FirstPiece(b); Prepend(out, used, Decode(b)) == Prepend(out + p.data, used + p.used, Decode(b[p.used..]))
  {
    hide FirstPiece;
    var p := FirstPiece(b);
    if p.Last? { assert out + [] == out; }
    if p.Data? {
      var d := Decode(b[p.used..]);
      if d.Done? { assert out + (p.data + d.body) == out + p.data + d.body; }
    }
  }

  // ---- What a prefix decides stays decided ---------------------------------------------------

  lemma FirstPieceStable(b: string, more: string)
    requires !FirstPiece(b).Unfinished?
    ensures FirstPiece(b + more) == FirstPiece(b)
  {
    hide LineSize, IndexOf;
    var j := IndexOf(b, CRLF);
    IndexOfStable(b, more, CRLF);
    assert (b + more)[..j] == b[..j];
    if FirstPiece(b).Data? {
      var n := LineSize(b[..j]).value;
      assert (b + more)[j + 2..j + 2 + n] == b[j + 2..j + 2 + n];
    }
  }

  /** A body that is decoded - or overflows - does so whatever bytes follow. */
  lemma {:induction false} DecodeStable(b: string, more: string)
    requires !Decode(b).Fails?
    ensures Decode(b + more) == Decode(b)
    decreases |b|
  {
    hide FirstPiece;
    FirstPieceStable(b, more);
    if FirstPiece(b).Data? {
      var used := FirstPiece(b).used;
      assert (b + more)[used..] == b[used..] + more;
      DecodeStable(b[used..], more);
    }
  }

  // ---- Round trip --------------------------------------------------------------------------------

  /** A chunk as a sender may spell it: any hexadecimal digits for the size, leading zeros and
      either case included, and an extension that is empty or starts with a semicolon. */
  datatype Chunk = Chunk(digits: string, ext: string, data: string)

  predicate ValidSize(digits: string, ext: string, n: nat) {
    && digits != [] && AllDigits(digits, 16) && Value(digits, 16) == n
    && (ext != [] ==> ext[0] == ';') && '\n' !in ext
  }

  predicate ValidChunk(c: Chunk) {
    ValidSize(c.digits, c.ext, |c.data|) && 0 < |c.data| && |c.data| + 2 <= MAX_INT64
  }

  function EncodeChunk(c: Chunk): string {
    c.digits + c.ext + CRLF + c.data + CRLF
  }

  /** All chunks, and the last one, of size zero, without trailers. */
  function Encode(chunks: seq<Chunk>, last: Chunk): string {
    if chunks == [] then last.digits + last.ext + CRLF + CRLF
    else EncodeChunk(chunks[0]) + Encode(chunks[1..], last)
  }

  ghost predicate ValidBody(chunks: seq<Chunk>, last: Chunk) {
    (forall c <- chunks :: ValidChunk(c)) && ValidSize(last.digits, last.ext, 0)
  }

  function Contents(chunks: seq<Chunk>): string {
    if chunks == [] then [] else chunks[0].data + Contents(chunks[1..])
  }

  lemma DigitsArePlain(digits: string)
    requires AllDigits(digits, 16)
    ensures Trimmed(digits) && '\n' !in digits && ';' !in digits
    ensures digits != [] ==> digits[0] != '-' && digits[0] != '+'
  {
    forall c | c in digits ensures c != '\n' && c != ';' && !IsSpace(c) && c != '-' && c != '+' {
      assert Digit(c) < 16;
    }
    if digits != [] { assert digits[0] in digits && digits[|digits| - 1] in digits; }
  }

  lemma {:induction false} IndexOfSemicolon(digits: string, ext: string)
    requires ';' !in digits && (ext != [] ==> ext[0] == ';')
    ensures IndexOf(digits + ext, ";") == if ext == [] then -1 else |digits|
    decreases |digits|
  {
    var s := digits + ext;
    if digits == [] {
      assert s == ext;
      if ext != [] { assert ";" <= ext; }
    } else {
      assert s[0] == digits[0] && digits[0] in digits;
      assert s[1..] == digits[1..] + ext;
      IndexOfSemicolon(digits[1..], ext);
    }
  }

  /** The decoder reads the size the sender wrote. */
  lemma LineSizeOfValid(digits: string, ext: string, n: nat)
    requires ValidSize(digits, ext, n) && n <= MAX_INT64
    ensures LineSize(digits + ext) == Some(n)
  {
    hide IndexOf, Trim, Value;
    DigitsArePlain(digits);
    IndexOfSemicolon(digits, ext);
    if ext == [] { assert digits + ext == digits; } else { assert (digits + ext)[..|digits|] == digits; }
    TrimIsTrimmed(digits);
  }

  lemma FirstLine(digits: string, ext: string, n: nat, more: string)
    requires ValidSize(digits, ext, n) && n <= MAX_INT64
    ensures var b := digits + ext + CRLF + more; var line := |digits| + |ext|;
            IndexOf(b, CRLF) == line && b[..line] == digits + ext && LineSize(b[..line]) == Some(n)
  {
    hide IndexOf, LineSize;
    DigitsArePlain(digits);
    IndexOfLineEnd(digits + ext, more);
    LineSizeOfValid(digits, ext, n);
    var b := digits + ext + CRLF + more;
    assert b[..|digits| + |ext|] == digits + ext;
  }

  lemma FirstPieceOfChunk(c: Chunk, more: string)
    requires ValidChunk(c)
    ensures FirstPiece(EncodeChunk(c) + more) == Data(c.data, |EncodeChunk(c)|)
    ensures (EncodeChunk(c) + more)[|EncodeChunk(c)|..] == more
  {
    hide IndexOf, LineSize, ValidSize;
    var b := EncodeChunk(c) + more;
    var line := |c.digits| + |c.ext|;
    assert b == c.digits + c.ext + CRLF + (c.data + CRLF + more);
    FirstLine(c.digits, c.ext, |c.data|, c.data + CRLF + more);
    assert b[line + 2..line + 2 + |c.data|] == c.data;
  }

  lemma DecodeOfChunk(c: Chunk, more: string)
    requires ValidChunk(c)
    ensures Decode(EncodeChunk(c) + more) == Prepend(c.data, |EncodeChunk(c)|, Decode(more))
  {
    hide FirstPiece, EncodeChunk;
    FirstPieceOfChunk(c, more);
  }

  lemma FirstPieceOfLast(last: Chunk, more: string)
    requires ValidSize(last.digits, last.ext, 0)
    ensures var e := last.digits + last.ext + CRLF + CRLF; FirstPiece(e + more) == Last(|e|)
  {
    hide IndexOf, LineSize, ValidSize;
    var e := last.digits + last.ext + CRLF + CRLF;
    assert e + more == last.digits + last.ext + CRLF + (CRLF + more);
    FirstLine(last.digits, last.ext, 0, CRLF + more);
  }

  /** Decoding undoes encoding: for any chunks, however their sizes are spelt, and any bytes after
      them, the decoder returns the contents and exactly the length of the encoding. */
  lemma {:induction false} DecodeUndoesEncode(chunks: seq<Chunk>, last: Chunk, more: string)
    requires ValidBody(chunks, last)
    ensures Decode(Encode(chunks, last) + more) == Done(Contents(chunks), |Encode(chunks, last)|)
    decreases |chunks|
  {
    hide FirstPiece, ValidSize, EncodeChunk;
    if chunks == [] {
      FirstPieceOfLast(last, more);
    } else {
      var rest := Encode(chunks[1..], last) + more;
      assert Encode(chunks, last) + more == EncodeChunk(chunks[0]) + rest;
      DecodeOfChunk(chunks[0], rest);
      DecodeUndoesEncode(chunks[1..], last, more);
    }
  }

  lemma {:induction false} PrefixHasNoLine(digits: string, ext: string, n: nat, p: string)
    requires ValidSize(digits, ext, n) && p <= digits + ext + "\r"
    ensures IndexOf(p, CRLF) == -1
  {
    DigitsArePlain(digits);
    forall c | c in p ensures c != '\n' { assert c in digits + ext + "\r"; }
    NoLineEnd(p);
  }

  lemma PrefixOfChunkFails(c: Chunk, p: string)
    requires ValidChunk(c) && p <= EncodeChunk(c) && |p| < |EncodeChunk(c)|
    ensures FirstPiece(p).Unfinished?
  {
    hide IndexOf, LineSize, ValidSize;
    var line := |c.digits| + |c.ext|;
    if |p| < line + 2 {
      assert p <= c.digits + c.ext + "\r" by {
        assert (c.digits + c.ext + CRLF)[..line + 1] == c.digits + c.ext + "\r";
        assert EncodeChunk(c)[..line + 1] == c.digits + c.ext + "\r";
      }
      PrefixHasNoLine(c.digits, c.ext, |c.data|, p);
    } else {
      assert p == c.digits + c.ext + CRLF + p[line + 2..] by {
        assert p == EncodeChunk(c)[..|p|];
      }
      FirstLine(c.digits, c.ext, |c.data|, p[line + 2..]);
    }
  }

  lemma PrefixOfLastFails(last: Chunk, p: string)
    requires ValidSize(last.digits, last.ext, 0)
    requires var e := last.digits + last.ext + CRLF + CRLF; p <= e && |p| < |e|
    ensures FirstPiece(p).Unfinished?
  {
    hide IndexOf, LineSize, ValidSize;
    var e := last.digits + last.ext + CRLF + CRLF;
    var line := |last.digits| + |last.ext|;
    if |p| < line + 2 {
      assert e[..line + 1] == last.digits + last.ext + "\r";
      PrefixHasNoLine(last.digits, last.ext, 0, p);
    } else {
      assert p == last.digits + last.ext + CRLF + p[line + 2..];
      FirstLine(last.digits, last.ext, 0, p[line + 2..]);
    }
  }

  /** Every strict prefix of an encoding is refused, so nothing is emitted early. */
  lemma {:induction false} StrictPrefixFails(chunks: seq<Chunk>, last: Chunk, p: string)
    requires ValidBody(chunks, last) && p <= Encode(chunks, last) && |p| < |Encode(chunks, last)|
    ensures Decode(p).Fails?
    decreases |chunks|
  {
    hide FirstPiece, ValidSize, EncodeChunk;
    if chunks == [] {
      PrefixOfLastFails(last, p);
    } else {
      var e := EncodeChunk(chunks[0]);
      if |p| < |e| {
        assert p <= e;
        PrefixOfChunkFails(chunks[0], p);
      } else {
        assert p == e + p[|e|..];
        DecodeOfChunk(chunks[0], p[|e|..]);
        StrictPrefixFails(chunks[1..], last, p[|e|..]);
      }
    }
  }

  // ---- When the decoder overflows --------------------------------------------------------------

  /** A complete size line with one of the two sizes for which the addition of 2 wraps around. */
  predicate OversizedLine(b: string) {
    var j := IndexOf(b, CRLF);
    j >= 0 && LineSize(b[..j]) in {Some(MAX_INT64 - 1), Some(MAX_INT64)}
  }

  /** What is left behind `k` complete chunks, if there are so many. */
  function Behind(b: string, k: nat): Option<string> {
    if k == 0 then Some(b)
    else
      match FirstPiece(b)
      case Data(_, used) => Behind(b[used..], k - 1)
      case _ => None
  }

  ghost predicate OversizedAt(b: string, k: nat) {
    Behind(b, k).Some? && OversizedLine(Behind(b, k).value)
  }

  lemma TooBigIff(b: string)
    ensures FirstPiece(b).TooBig? <==> OversizedLine(b)
  {
    hide IndexOf, Trim, Value;
  }

  lemma {:induction false} OversizedOverflows(b: string, k: nat)
    requires OversizedAt(b, k)
    ensures Decode(b).Overflow?
    decreases k
  {
    hide FirstPiece, OversizedLine;
    TooBigIff(b);
    if k > 0 { OversizedOverflows(b[FirstPiece(b).used..], k - 1); }
  }

  lemma {:induction false} OverflowHasSize(b: string) returns (k: nat)
    requires Decode(b).Overflow?
    ensures OversizedAt(b, k)
    decreases |b|
  {
    hide FirstPiece, OversizedLine;
    TooBigIff(b);
    k := 0;
    if FirstPiece(b).Data? {
      var before := OverflowHasSize(b[FirstPiece(b).used..]);
      k := before + 1;
    }
  }

  /** The decoder overflows for exactly these bytes: some number of complete chunks, and then a
      complete size line with the size 2^63 - 2 or 2^63 - 1. */
  lemma OverflowsIff(b: string)
    ensures Decode(b).Overflow? <==> exists k: nat :: OversizedAt(b, k)
  {
    hide Decode, OversizedAt;
    if Decode(b).Overflow? { var k := OverflowHasSize(b); }
    if k: nat :| OversizedAt(b, k) { OversizedOverflows(b, k); }
  }

  function EncodeChunks(chunks: seq<Chunk>): string {
    if chunks == [] then [] else EncodeChunk(chunks[0]) + EncodeChunks(chunks[1..])
  }

  /** However many valid chunks a sender puts in front, and whatever follows the line, a size of
      2^63 - 2 or 2^63 - 1 in any spelling overflows. */
  lemma {:induction false} OversizedChunkOverflows(chunks: seq<Chunk>, digits: string, ext: string, n: nat, more: string)
    requires forall c <- chunks :: ValidChunk(c)
    requires ValidSize(digits, ext, n) && n <= MAX_INT64 < n + 2
    ensures Decode(EncodeChunks(chunks) + (digits + ext + CRLF + more)).Overflow?
    decreases |chunks|
  {
    hide IndexOf, LineSize, ValidSize, EncodeChunk, FirstPiece, ValidChunk;
    var line := digits + ext + CRLF + more;
    if chunks == [] {
      FirstLine(digits, ext, n, more);
      TooBigIff(line);
      assert EncodeChunks(chunks) + line == line;
    } else {
      var rest := EncodeChunks(chunks[1..]) + line;
      assert EncodeChunks(chunks) + line == EncodeChunk(chunks[0]) + rest;
      DecodeOfChunk(chunks[0], rest);
      OversizedChunkOverflows(chunks[1..], digits, ext, n, more);
    }
  }

  lemma ValueOfNext(s: string, c: char)
    ensures Value(s + [c], 16) == Value(s, 16) * 16 + Digit(c)
  {
    assert (s + [c])[..|s|] == s;
  }

  /** One such size: 2^63 - 2. */
  lemma LargeSize()
    ensures ValidSize("7ffffffffffffffe", "", MAX_INT64 - 1)
  {
    var s: string := "7";
    var v := 7;
    assert s[..0] == "";
    assert Value(s, 16) == v;
    for i := 0 to 14
      invariant |s| == i + 1 && s[0] == '7' && forall k :: 1 <= k <= i ==> s[k] == 'f'
      invariant Value(s, 16) == v
      invariant v == [7, 0x7f, 0x7ff, 0x7fff, 0x7_ffff, 0x7f_ffff, 0x7ff_ffff, 0x7fff_ffff, 0x7_ffff_ffff,
                      0x7f_ffff_ffff, 0x7ff_ffff_ffff, 0x7fff_ffff_ffff, 0x7_ffff_ffff_ffff, 0x7f_ffff_ffff_ffff,
                      0x7ff_ffff_ffff_ffff][i]
    {
      ValueOfNext(s, 'f');
      s, v := s + "f", v * 16 + 15;
    }
    ValueOfNext(s, 'e');
    assert s + "e" == "7ffffffffffffffe";
  }
}
