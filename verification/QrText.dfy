/** `addData` and `make` for a text: its bytes, in one segment of a symbol, and back. */
module QrText {
  import opened JsBits
  import opened Outcomes
  import opened MsbBits
  import opened Segments
  import opened DataStream
  import opened RsBlocks
  import opened Zigzag
  import opened QrSymbol
  import opened QrCode
  import QrMath
  import Utf8

  type Unit = Utf8.Unit

  /** The entries of `stringToBytesFuncs`. */
  datatype Encoding = Default | Utf8Octets

  /** The low bytes of the code units. */
  function LowBytes(s: seq<Unit>): (b: seq<Octet>)
    ensures |b| == |s| && forall i :: 0 <= i < |s| ==> b[i] == LowPart(s[i], 8)
  {
    ByteSize();
    seq(|s|, i requires 0 <= i < |s| => LowPart(s[i], 8))
  }

  lemma ByteSize()
    ensures Pow2(8) == 256
  {
    assert Pow2(4) == 16;
  }

  /** The function that is installed unless another one is chosen. */
  method DefaultBytes(s: seq<Unit>) returns (bytes: seq<Octet>)
    ensures bytes == LowBytes(s)
  {
    hide Pow2, LowPart, And;
    bytes := [];
    ByteSize();
    for i := 0 to |s|
      invariant |bytes| == i && forall j :: 0 <= j < i ==> bytes[j] == LowPart(s[j], 8)
    {
      AndMask(s[i], 8);
      bytes := bytes + [And(0xff, s[i])];
    }
  }

  // --- UTF-8 octets are bytes ---

  predicate AllBytes(b: seq<nat>) {
    forall i :: 0 <= i < |b| ==> b[i] < 256
  }

  lemma OctetsAreBytes(c: nat)
    requires c < 0x110000
    ensures AllBytes(Utf8.Octets(c))
  {
  }

  lemma {:induction false} TranscodedBytes(s: seq<Unit>)
    ensures AllBytes(Utf8.Transcoded(s))
    decreases |s|
  {
    hide Utf8.Octets;
    if |s| == 0 {
    } else {
      TranscodedBytes(Utf8.Rest(s));
      OctetsAreBytes(Utf8.Pair(s));
    }
  }

  /** The bytes of a text. */
  function TextBytes(s: seq<Unit>, encoding: Encoding): seq<Octet> {
    match encoding
    case Default => LowBytes(s)
    case Utf8Octets =>
      TranscodedBytes(s);
      Utf8.Transcoded(s)
  }

  // --- The whole way ---

  /** The text in a symbol, as code points: one segment of bytes, read in the given encoding. */
  function ReadText(g: Grid, encoding: Encoding): Option<seq<nat>> {
    match ReadSymbol(g)
    case Throws => None
    case Ok(segments) =>
      if |segments| != 1 || !segments[0].EightBit? then None
      else
        match encoding
        case Default => Some(segments[0].bytes)
        case Utf8Octets => Utf8.Decode(segments[0].bytes)
  }

  predicate IsLatin(s: seq<Unit>) {
    forall i :: 0 <= i < |s| ==> s[i] < 256
  }

  /** A unit is kept exactly when it is a byte. */
  lemma LatinIff(s: seq<Unit>)
    ensures LowBytes(s) == s <==> IsLatin(s)
  {
    hide Pow2, LowPart;
    ByteSize();
    if IsLatin(s) {
      forall i | 0 <= i < |s| ensures LowBytes(s)[i] == s[i] { LowPartFits(s[i], 8); }
    } else {
      var i :| 0 <= i < |s| && s[i] >= 256;
      assert LowBytes(s)[i] < 256;
    }
  }

  /** What comes back: with the default, the text exactly when all its units are bytes; with UTF-8 the
      code points of the repaired text, which are those of the text exactly when it is well-formed. */
  lemma TextReads(g: Grid, s: seq<Unit>, encoding: Encoding)
    requires ReadSymbol(g) == Ok([EightBit(TextBytes(s, encoding))])
    ensures encoding.Default? ==> (ReadText(g, encoding) == Some(s) <==> IsLatin(s))
    ensures encoding.Utf8Octets? ==>
      && Utf8.WellFormed(Utf8.Repaired(s)) && ReadText(g, encoding) == Some(Utf8.CodePoints(Utf8.Repaired(s)))
      && (Utf8.Repaired(s) == s <==> Utf8.WellFormed(s))
  {
    hide ReadSymbol, LowBytes, Utf8.Transcoded, Utf8.Decode, Utf8.Repaired, Utf8.Points, Utf8.WellFormed,
         Utf8.CodePoints, IsLatin;
    match encoding
    case Default =>
      LatinIff(s);
    case Utf8Octets =>
      Utf8.DecodeTranscoded(s);
      Utf8.RepairedMeans(s);
      Utf8.RepairedIff(s);
  }

  /** `qrcode(0, level)`, `addData(text)` and `make()`. */
  method MakeText(math: QrMath.QrMath, level: Level, s: seq<Unit>, encoding: Encoding, cost: Grid -> real)
      returns (r: Outcome<QrSymbol>)
    requires math.Valid()
    ensures r.Throws? <==> forall w :: 1 <= w <= 40 ==> !Fits([EightBit(TextBytes(s, encoding))], w, level)
    ensures r.Ok? ==> ReadSymbol(r.value.modules) == Ok([EightBit(TextBytes(s, encoding))])
    ensures r.Ok? && encoding.Default? ==> (ReadText(r.value.modules, encoding) == Some(s) <==> IsLatin(s))
    ensures r.Ok? && encoding.Utf8Octets? && Utf8.WellFormed(s) ==>
      ReadText(r.value.modules, encoding) == Some(Utf8.CodePoints(s))
  {
    hide ReadSymbol, ReadText, LowBytes, Utf8.Transcoded, Utf8.Repaired, Utf8.WellFormed, Utf8.CodePoints, IsLatin,
         Fits;
    var bytes;
    match encoding {
      case Default => bytes := DefaultBytes(s);
      case Utf8Octets =>
        TranscodedBytes(s);
        bytes := Utf8.ToUtf8Array(s);
    }
    ghost var version, maskPattern, trials;
    r, version, maskPattern, trials := MakeLeast(math, level, [EightBit(bytes)], cost);
    AllBytesLegal(bytes);
    if r.Ok? { TextReads(r.value.modules, s, encoding); }
  }

  lemma AllBytesLegal(bytes: seq<Octet>)
    ensures AllLegal([EightBit(bytes)])
  {
  }
}
