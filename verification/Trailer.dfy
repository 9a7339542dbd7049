/** The schema trailer: a document appended after an executable, found again from the end of the file.

    `<payload> <uint64 big-endian payload length> <16-byte magic>`
 */
module Trailer {

  type byte = x: int | 0 <= x < 256

  /** "SOULSTACKSCHEMA1" */
  const MAGIC: seq<byte> := [83, 79, 85, 76, 83, 84, 65, 67, 75, 83, 67, 72, 69, 77, 65, 49]

  const FOOTER := 24

  const MAX_PAYLOAD := 0x100_0000

  // ---- Big-endian numbers -----------------------------------------------------------------

  function BigEndian(n: nat, width: nat): (s: seq<byte>)
    ensures |s| == width
  {
    if width == 0 then [] else BigEndian(n / 256, width - 1) + [n % 256]
  }

  function Value(s: seq<byte>): nat {
    if s == [] then 0 else Value(s[..|s| - 1]) * 256 + s[|s| - 1]
  }

  function Capacity(width: nat): nat {
    if width == 0 then 1 else Capacity(width - 1) * 256
  }

  lemma {:induction false} NumberReadsBack(n: nat, width: nat)
    requires n < Capacity(width)
    ensures Value(BigEndian(n, width)) == n
  {
    if width > 0 {
      NumberReadsBack(n / 256, width - 1);
      assert BigEndian(n, width)[..width - 1] == BigEndian(n / 256, width - 1);
    }
  }

  lemma {:induction false} NumberIsSpelledOnce(s: seq<byte>)
    ensures BigEndian(Value(s), |s|) == s
  {
    if s != [] {
      NumberIsSpelledOnce(s[..|s| - 1]);
      assert s == s[..|s| - 1] + [s[|s| - 1]];
    }
  }

  // ---- The format -------------------------------------------------------------------------

  function Footer(length: nat): (f: seq<byte>)
    ensures |f| == FOOTER
  {
    BigEndian(length, 8) + MAGIC
  }

  function AppendTrailer(dst: seq<byte>, payload: seq<byte>): (out: seq<byte>)
    ensures |out| == |dst| + |payload| + FOOTER
  {
    dst + payload + Footer(|payload|)
  }

  datatype Malformation = ZeroLength | TooLong | DoesNotFit

  datatype Read = Payload(payload: seq<byte>) | NoTrailer | Malformed(why: Malformation)

  datatype Start = At(offset: nat) | Absent | Bad(why: Malformation)

  predicate EndsInMagic(file: seq<byte>) {
    |file| >= FOOTER && file[|file| - 16..] == MAGIC
  }

  function Length(file: seq<byte>): nat
    requires |file| >= FOOTER
  {
    Value(file[|file| - FOOTER..|file| - 16])
  }

  function ReadTrailer(file: seq<byte>): Read {
    if !EndsInMagic(file) then NoTrailer
    else
      var length := Length(file);
      if length == 0 then Malformed(ZeroLength)
      else if length > MAX_PAYLOAD then Malformed(TooLong)
      else if |file| - FOOTER - length < 0 then Malformed(DoesNotFit)
      else Payload(file[|file| - FOOTER - length..|file| - FOOTER])
  }

  /** Where the trailer begins. An empty payload is no obstacle here: it is cut off like any other. */
  function TrailerStart(file: seq<byte>): (r: Start)
    ensures r.At? ==> r.offset <= |file|
  {
    if !EndsInMagic(file) then Absent
    else
      var length := Length(file);
      if length > MAX_PAYLOAD then Bad(TooLong)
      else if |file| - FOOTER - length < 0 then Bad(DoesNotFit)
      else At(|file| - FOOTER - length)
  }

  /** The file without its trailer, if it has one. */
  function Bare(file: seq<byte>): seq<byte> {
    if TrailerStart(file).At? then file[..TrailerStart(file).offset] else file
  }

  lemma LengthsFit(n: nat, width: nat)
    requires n <= MAX_PAYLOAD && width == 8
    ensures n < Capacity(width)
  {
    assert Capacity(0) == 1 && Capacity(1) == 256 && Capacity(2) == 65536 && Capacity(3) == 16777216;
    assert Capacity(4) == 4294967296;
    assert Capacity(width - 4) * 256 <= Capacity(width - 3);
    assert Capacity(width - 3) <= Capacity(width - 2) <= Capacity(width - 1) <= Capacity(width);
  }

  lemma AppendedLength(dst: seq<byte>, payload: seq<byte>)
    requires |payload| <= MAX_PAYLOAD
    ensures var out := AppendTrailer(dst, payload); EndsInMagic(out) && Length(out) == |payload|
  {
    var out := AppendTrailer(dst, payload);
    assert out[|out| - 16..] == MAGIC;
    assert out[|out| - FOOTER..|out| - 16] == BigEndian(|payload|, 8);
    LengthsFit(|payload|, 8);
    NumberReadsBack(|payload|, 8);
  }

  /** What was appended is what is read, and it begins where the artifact ended. */
  lemma AppendedReadsBack(dst: seq<byte>, payload: seq<byte>)
    requires |payload| <= MAX_PAYLOAD
    ensures var out := AppendTrailer(dst, payload);
      && TrailerStart(out) == At(|dst|) && Bare(out) == dst
      && ReadTrailer(out) == if payload == [] then Malformed(ZeroLength) else Payload(payload)
  {
    AppendedLength(dst, payload);
  }

  lemma InFour(s: seq<byte>, i: nat, j: nat, k: nat)
    requires i <= j <= k <= |s|
    ensures s[..i] + s[i..j] + (s[j..k] + s[k..]) == s
  {
  }

  /** A file in which a trailer is found is the bare artifact, the payload and its footer, byte for byte. */
  lemma FoundIsAppended(file: seq<byte>)
    requires TrailerStart(file).At?
    ensures var start := TrailerStart(file).offset;
      start <= |file| - FOOTER && file == AppendTrailer(file[..start], file[start..|file| - FOOTER])
  {
    var start, n := TrailerStart(file).offset, |file|;
    NumberIsSpelledOnce(file[n - FOOTER..n - 16]);
    assert Footer(|file[start..n - FOOTER]|) == file[n - FOOTER..n - 16] + file[n - 16..];
    InFour(file, start, n - FOOTER, n - 16);
  }

  /** The reader accepts exactly the files some stamping could have produced. */
  lemma ReadExactly(file: seq<byte>, payload: seq<byte>)
    ensures ReadTrailer(file) == Payload(payload)
      <==> 0 < |payload| <= MAX_PAYLOAD && file == AppendTrailer(Bare(file), payload)
  {
    if ReadTrailer(file) == Payload(payload) {
      FoundIsAppended(file);
    } else if 0 < |payload| <= MAX_PAYLOAD && file == AppendTrailer(Bare(file), payload) {
      AppendedReadsBack(Bare(file), payload);
    }
  }

  // ---- Stamping ---------------------------------------------------------------------------

  datatype Outcome = Stamped | EmptyPayload | PayloadTooLong | BadTrailer(why: Malformation)

  function Verdict(file: seq<byte>, payload: seq<byte>): Outcome {
    if payload == [] then EmptyPayload
    else if |payload| > MAX_PAYLOAD then PayloadTooLong
    else match TrailerStart(file) case Bad(why) => BadTrailer(why) case _ => Stamped
  }

  /** The length at the end of the file is allowed, and the file has room for it. */
  predicate FitsIn(file: seq<byte>)
    requires EndsInMagic(file)
  {
    Length(file) <= MAX_PAYLOAD && Length(file) + FOOTER <= |file|
  }

  /** What can be stamped: a payload of an allowed size, over a file whose end, where it carries the mark, has
      room for the length it gives. Of two faults the payload's is reported first. */
  lemma VerdictExactly(file: seq<byte>, payload: seq<byte>)
    ensures var v := Verdict(file, payload);
      && (v == EmptyPayload <==> |payload| == 0)
      && (v == PayloadTooLong <==> |payload| > MAX_PAYLOAD)
      && (v.BadTrailer? <==> 0 < |payload| <= MAX_PAYLOAD && EndsInMagic(file) && !FitsIn(file))
      && (v == BadTrailer(TooLong) ==> Length(file) > MAX_PAYLOAD)
      && (v == BadTrailer(DoesNotFit) ==> Length(file) <= MAX_PAYLOAD)
  {
  }

  function Restamped(file: seq<byte>, payload: seq<byte>): seq<byte> {
    if Verdict(file, payload) == Stamped then AppendTrailer(Bare(file), payload) else file
  }

  /** Stamping twice is stamping once with the later payload: trailers do not accumulate. */
  lemma RestampReplaces(file: seq<byte>, p: seq<byte>, q: seq<byte>)
    requires Verdict(file, p) == Stamped
    ensures Verdict(Restamped(file, p), q) == Verdict(file, q)
    ensures Verdict(file, q) == Stamped ==> Restamped(Restamped(file, p), q) == Restamped(file, q)
    ensures Restamped(Restamped(file, p), p) == Restamped(file, p)
  {
    AppendedReadsBack(Bare(file), p);
  }

  /** A stamped file reads back as stamped and still begins with the artifact. */
  lemma StampedReadsBack(file: seq<byte>, p: seq<byte>)
    requires Verdict(file, p) == Stamped
    ensures ReadTrailer(Restamped(file, p)) == Payload(p)
    ensures Bare(Restamped(file, p)) == Bare(file) && Bare(file) <= Restamped(file, p)
  {
    AppendedReadsBack(Bare(file), p);
  }

  /** An artifact on disk. Writing past the end extends it. */
  class File {
    var content: seq<byte>

    constructor (bytes: seq<byte>)
      ensures content == bytes
    {
      content := bytes;
    }

    method Truncate(size: nat)
      requires size <= |content|
      modifies this
      ensures content == old(content)[..size]
    {
      content := content[..size];
    }

    method WriteAt(bytes: seq<byte>, offset: nat)
      requires offset <= |content|
      modifies this
      ensures content == old(content)[..offset] + bytes
        + if offset + |bytes| < |old(content)| then old(content)[offset + |bytes|..] else []
    {
      var end := if offset + |bytes| < |content| then content[offset + |bytes|..] else [];
      content := content[..offset] + bytes + end;
    }

    method WriteTrailer(payload: seq<byte>) returns (outcome: Outcome)
      modifies this
      ensures outcome == Verdict(old(content), payload)
      ensures content == Restamped(old(content), payload)
      ensures outcome == Stamped ==> ReadTrailer(content) == Payload(payload)
    {
      if payload == [] { return EmptyPayload; }
      if |payload| > MAX_PAYLOAD { return PayloadTooLong; }
      var base := |content|;
      match TrailerStart(content) {
        case Bad(why) => return BadTrailer(why);
        case At(offset) => base := offset;
        case Absent =>
      }
      ghost var before := content;
      Truncate(base);
      assert content == Bare(before);
      WriteAt(AppendTrailer([], payload), base);
      assert content == AppendTrailer(Bare(before), payload);
      StampedReadsBack(before, payload);
      outcome := Stamped;
    }
  }
}
