/** load_text_file: the size guard, codepage resolution, the two-pass
    conversion, the byte-order-mark chop and the hand-over of the text to the
    line-ending normalizer. The file arrives as its bytes; the detector, the
    converter and the normalizer are parameters. */
module TextFile {
  import opened Types
  import opened Bom
  import opened Detect
  import opened Convert

  const DetectCallText: string := "mlang->DetectCodepageInIStream(0, GetACP(), stream, encoding, &nscores)"
  const TooBigSuffix: string := ": file too big"

  /** The low 32 bits of the 64-bit file length; under the size guard it is
      the length itself. */
  function LowPart(quadPart: nat): (lowPart: nat)
    ensures lowPart < 0x1_0000_0000 && lowPart <= quadPart
    ensures quadPart < 0x1_0000_0000 ==> lowPart == quadPart
  {
    quadPart % 0x1_0000_0000
  }

  /** The units the normalizer reads from a pointer into the buffer: those
      before the first 0. */
  function CString(s: seq<char16>): (r: seq<char16>)
    ensures r <= s
    ensures 0 !in r
    ensures |r| < |s| ==> s[|r|] == 0
  {
    if s == [] || s[0] == 0 then [] else [s[0]] + CString(s[1..])
  }

  /** A string with its terminator reads back whole, up to the first 0. */
  lemma {:induction false} CStringStopsAtFirstNul(a: seq<char16>, b: seq<char16>)
    requires 0 !in a
    ensures CString(a + [0] + b) == a
  {
    if a != [] {
      assert (a + [0] + b)[1..] == a[1..] + [0] + b;
      CStringStopsAtFirstNul(a[1..], b);
    }
  }

  /** The detector's choice, or the caller's codepage, then the byte-order-mark
      sniff; None when the detector was asked and failed. */
  function Resolve(requested: Codepage, ibuf: seq<byte>, detect: seq<byte> -> Option<Detection>): Option<Codepage>
  {
    if requested != Autodetect then Some(SniffBom(ibuf, requested))
    else match detect(ibuf)
      case None => None
      case Some(d) => Some(SniffBom(ibuf, DetectedCodepage(d)))
  }

  /** Codepage resolution as the source does it, reassigning `codepage`. */
  method ResolveCodepage(requested: Codepage, ibuf: seq<byte>, detect: seq<byte> -> Option<Detection>)
    returns (r: Result<Codepage>, ghost calls: seq<Call>)
    ensures calls == if requested == Autodetect then [DetectCall] else []
    ensures r.Failure? <==> requested == Autodetect && detect(ibuf).None?
    ensures r.Failure? ==> r.error == PlatformError(DetectCallText)
    ensures r.Success? ==> Resolve(requested, ibuf, detect) == Some(r.value)
    ensures r.Success? && HasPrefix(ibuf, Utf8Mark) ==> r.value == Utf8
    ensures r.Success? && HasPrefix(ibuf, Utf16LEMark) ==> r.value == Utf16LE
    ensures r.Success? && HasPrefix(ibuf, Utf16BEMark) ==> r.value == Utf16BE
    ensures !HasMark(ibuf) && requested != Autodetect ==> r == Success(requested)
    ensures !HasMark(ibuf) && requested == Autodetect && detect(ibuf).Some? ==>
              r == Success(DetectedCodepage(detect(ibuf).value))
  {
    var codepage := requested;
    calls := [];
    if codepage == Autodetect {
      var detection := detect(ibuf);
      calls := [DetectCall];
      if detection.None? {
        r := Failure(PlatformError(DetectCallText));
        return;
      }
      codepage := SelectCandidate(detection.value);
    }
    if HasPrefix(ibuf, Utf8Mark) {
      codepage := Utf8;
    } else if HasPrefix(ibuf, Utf16LEMark) {
      codepage := Utf16LE;
    } else if HasPrefix(ibuf, Utf16BEMark) {
      codepage := Utf16BE;
    }
    r := Success(codepage);
  }

  /** The outcome of load_text_file on a file holding `bytes`. */
  function Load(path: string, bytes: seq<byte>, codepage: Codepage,
                detect: seq<byte> -> Option<Detection>, conv: Converter,
                normalize: seq<char16> -> seq<char16>): Result<seq<char16>>
  {
    if |bytes| == 0 then Success([])
    else if |bytes| > MaxFileSize then Failure(FileTooBig(path + TooBigSuffix))
    else match Resolve(codepage, bytes, detect)
      case None => Failure(PlatformError(DetectCallText))
      case Some(cp) =>
        match TwoPass(conv, cp, bytes)
        case Failure(e) => Failure(e)
        case Success(obuf) => Success(normalize(CString(StripBom(obuf))))
  }

  /** The platform calls load_text_file makes on a file holding `bytes`. */
  ghost function LoadCalls(bytes: seq<byte>, codepage: Codepage,
                           detect: seq<byte> -> Option<Detection>, conv: Converter): seq<Call>
  {
    if |bytes| == 0 || |bytes| > MaxFileSize then []
    else
      (if codepage == Autodetect then [DetectCall] else []) +
      match Resolve(codepage, bytes, detect)
      case None => []
      case Some(cp) => TwoPassCalls(conv, cp, bytes)
  }

  /** load_text_file. */
  method LoadTextFile(path: string, bytes: seq<byte>, codepage: Codepage,
                      detect: seq<byte> -> Option<Detection>, conv: Converter,
                      normalize: seq<char16> -> seq<char16>)
    returns (r: Result<seq<char16>>, ghost calls: seq<Call>)
    ensures r == Load(path, bytes, codepage, detect, conv, normalize)
    ensures calls == LoadCalls(bytes, codepage, detect, conv)
    ensures |bytes| == 0 ==> r == Success([]) && calls == []
    ensures |bytes| > MaxFileSize ==> r == Failure(FileTooBig(path + TooBigSuffix)) && calls == []
    ensures DetectCall in calls <==> 0 < |bytes| <= MaxFileSize && codepage == Autodetect
  {
    var quadPart := |bytes|;
    if quadPart == 0 {
      r, calls := Success([]), [];
      return;
    } else if quadPart > MaxFileSize {
      r, calls := Failure(FileTooBig(path + TooBigSuffix)), [];
      return;
    }
    var fileSize := LowPart(quadPart);
    var ibuf := bytes[..fileSize];
    assert ibuf == bytes;
    var resolved;
    resolved, calls := ResolveCodepage(codepage, ibuf, detect);
    if resolved.Failure? {
      r := Failure(resolved.error);
      return;
    }
    var converted;
    ghost var convertCalls;
    converted, convertCalls := ConvertToUnicode(conv, resolved.value, ibuf);
    calls := calls + convertCalls;
    if converted.Failure? {
      r := Failure(converted.error);
      return;
    }
    var obuf := converted.value;
    var bom := BomIndex(obuf);
    r := Success(normalize(CString(obuf[bom..])));
  }

  /** Without a mark, a caller's codepage reaches the converter unchanged and
      the detector is not asked. */
  lemma RequestedCodepageReachesConverter(bytes: seq<byte>, codepage: Codepage,
                                          detect: seq<byte> -> Option<Detection>, conv: Converter)
    requires 0 < |bytes| <= MaxFileSize && codepage != Autodetect && !HasMark(bytes)
    ensures LoadCalls(bytes, codepage, detect, conv) == TwoPassCalls(conv, codepage, bytes)
    ensures Measure(codepage) in LoadCalls(bytes, codepage, detect, conv)
  {
  }

  /** With a caller's codepage the detector's answer does not matter. */
  lemma DetectorIgnoredWhenRequested(path: string, bytes: seq<byte>, codepage: Codepage,
                                     detect1: seq<byte> -> Option<Detection>,
                                     detect2: seq<byte> -> Option<Detection>,
                                     conv: Converter, normalize: seq<char16> -> seq<char16>)
    requires codepage != Autodetect
    ensures Load(path, bytes, codepage, detect1, conv, normalize) == Load(path, bytes, codepage, detect2, conv, normalize)
  {
  }

  /** A UTF-8 signature makes the converter run under 65001 even against a
      caller's codepage, and the U+FEFF it decodes to is chopped off: the
      normalizer gets exactly the text behind it. */
  lemma Utf8MarkRoundTrip(path: string, payload: seq<byte>, codepage: Codepage,
                          detect: seq<byte> -> Option<Detection>, conv: Converter,
                          normalize: seq<char16> -> seq<char16>, s: seq<char16>)
    requires |Utf8Mark + payload| <= MaxFileSize
    requires codepage != Autodetect || detect(Utf8Mark + payload).Some?
    requires Decodes(conv, Utf8, Utf8Mark + payload, [ByteOrderMark] + s)
    requires 0 !in s
    ensures Load(path, Utf8Mark + payload, codepage, detect, conv, normalize) == Success(normalize(s))
  {
    var bytes := Utf8Mark + payload;
    assert bytes[..3] == Utf8Mark;
    assert Resolve(codepage, bytes, detect) == Some(Utf8);
    assert StripBom([ByteOrderMark] + s + [0]) == s + [0];
    CStringStopsAtFirstNul(s, []);
    assert s + [0] + [] == s + [0];
  }

  /** Without a mark, the decoded text of the caller's codepage reaches the
      normalizer unchanged when it neither starts with U+FEFF nor holds a 0. */
  lemma RequestedCodepageDecodes(path: string, bytes: seq<byte>, codepage: Codepage,
                                 detect: seq<byte> -> Option<Detection>, conv: Converter,
                                 normalize: seq<char16> -> seq<char16>, w: seq<char16>)
    requires 0 < |bytes| <= MaxFileSize && codepage != Autodetect && !HasMark(bytes)
    requires Decodes(conv, codepage, bytes, w)
    requires 0 !in w && (w == [] || w[0] != ByteOrderMark)
    ensures Load(path, bytes, codepage, detect, conv, normalize) == Success(normalize(w))
  {
    assert StripBom(w + [0]) == w + [0];
    CStringStopsAtFirstNul(w, []);
    assert w + [0] + [] == w + [0];
  }

  /** Only one U+FEFF is chopped: text decoded to two of them reaches the
      normalizer still starting with one. */
  lemma SecondMarkSurvives(path: string, bytes: seq<byte>, codepage: Codepage,
                           detect: seq<byte> -> Option<Detection>, conv: Converter,
                           normalize: seq<char16> -> seq<char16>, cp: Codepage, s: seq<char16>)
    requires 0 < |bytes| <= MaxFileSize
    requires Resolve(codepage, bytes, detect) == Some(cp)
    requires Decodes(conv, cp, bytes, [ByteOrderMark, ByteOrderMark] + s)
    requires 0 !in s
    ensures Load(path, bytes, codepage, detect, conv, normalize) == Success(normalize([ByteOrderMark] + s))
  {
    assert StripBom([ByteOrderMark, ByteOrderMark] + s + [0]) == [ByteOrderMark] + s + [0];
    CStringStopsAtFirstNul([ByteOrderMark] + s, []);
    assert [ByteOrderMark] + s + [0] + [] == [ByteOrderMark] + s + [0];
  }

  /** A U+0000 in the decoded text ends what the normalizer sees. */
  lemma NulTruncatesText(path: string, bytes: seq<byte>, codepage: Codepage,
                         detect: seq<byte> -> Option<Detection>, conv: Converter,
                         normalize: seq<char16> -> seq<char16>, cp: Codepage,
                         a: seq<char16>, b: seq<char16>)
    requires 0 < |bytes| <= MaxFileSize
    requires Resolve(codepage, bytes, detect) == Some(cp)
    requires Decodes(conv, cp, bytes, a + [0] + b)
    requires 0 !in a && (a == [] || a[0] != ByteOrderMark)
    ensures Load(path, bytes, codepage, detect, conv, normalize) == Success(normalize(a))
  {
    assert StripBom(a + [0] + b + [0]) == a + [0] + b + [0];
    CStringStopsAtFirstNul(a, b + [0]);
    assert a + [0] + (b + [0]) == a + [0] + b + [0];
  }

  /** A failed conversion call is surfaced as its platform error: no text,
      not even a partial one, comes back. */
  lemma ConversionFailureSurfaces(path: string, bytes: seq<byte>, codepage: Codepage,
                                  detect: seq<byte> -> Option<Detection>, conv: Converter,
                                  normalize: seq<char16> -> seq<char16>, cp: Codepage)
    requires 0 < |bytes| <= MaxFileSize
    requires Resolve(codepage, bytes, detect) == Some(cp)
    requires conv.measure(cp, bytes).None? || conv.fill(cp, bytes, conv.measure(cp, bytes).value).None?
    ensures Load(path, bytes, codepage, detect, conv, normalize) ==
            Failure(PlatformError(if conv.measure(cp, bytes).None? then MeasureCallText else FillCallText))
  {
  }

  /** In autodetect mode without a mark, a UTF-8 candidate at any scored rank
      decides the codepage. */
  lemma AutodetectPrefersUtf8(bytes: seq<byte>, detect: seq<byte> -> Option<Detection>, k: nat)
    requires !HasMark(bytes) && detect(bytes).Some?
    requires k < detect(bytes).value.nscores && detect(bytes).value.encoding[k] == Utf8
    ensures Resolve(Autodetect, bytes, detect) == Some(Utf8)
  {
    Utf8AtAnyRank(detect(bytes).value, k);
  }
}
