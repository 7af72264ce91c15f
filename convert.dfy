/** The two-pass conversion: measure the number of code units, allocate a
    buffer of exactly that many, fill it, then append a 0 terminator. */
module Convert {
  import opened Types

  const MeasureCallText: string := "mlang->ConvertStringToUnicode(&ctx, codepage, &ibuf[0], &size, 0, &cnt)"
  const FillCallText: string := "mlang->ConvertStringToUnicode(&ctx, codepage, &ibuf[0], &size, &obuf[0], &cnt)"

  /** The platform converter. `measure` is the call without an output
      buffer: the number of units needed, or None on a failed HRESULT.
      `fill` is the call into a buffer of the given capacity: the units it
      writes, or None on a failed HRESULT. */
  datatype Converter = Converter(
    measure: (Codepage, seq<byte>) -> Option<nat>,
    fill: (Codepage, seq<byte>, nat) -> Option<seq<char16>>)

  /** `conv` converts `ibuf` under `codepage` to exactly `w`: the measured
      count is |w| and filling that many units writes `w`. */
  predicate Decodes(conv: Converter, codepage: Codepage, ibuf: seq<byte>, w: seq<char16>)
  {
    conv.measure(codepage, ibuf) == Some(|w|) && conv.fill(codepage, ibuf, |w|) == Some(w)
  }

  /** A value-initialized buffer of `n` units. */
  function Zeros(n: nat): (z: seq<char16>)
    ensures |z| == n && forall i :: 0 <= i < n ==> z[i] == 0
  {
    seq(n, _ => 0)
  }

  /** The buffer after the converter writes `w` into it: it writes no more
      units than the buffer holds, and those not written keep their value. */
  function Overwrite(buf: seq<char16>, w: seq<char16>): (r: seq<char16>)
    ensures |r| == |buf|
    ensures forall i :: 0 <= i < |r| ==> r[i] == if i < |w| then w[i] else buf[i]
  {
    var k := if |w| < |buf| then |w| else |buf|;
    w[..k] + buf[k..]
  }

  /** A fill that writes as many units as the buffer holds leaves exactly them. */
  lemma OverwriteWhole(buf: seq<char16>, w: seq<char16>)
    ensures |w| == |buf| ==> Overwrite(buf, w) == w
  {
    if |w| == |buf| {
      assert w[..|buf|] == w;
    }
  }

  /** The calls the conversion makes: the fill only after a measure that succeeded. */
  ghost function TwoPassCalls(conv: Converter, codepage: Codepage, ibuf: seq<byte>): seq<Call>
  {
    [Measure(codepage)] +
    match conv.measure(codepage, ibuf)
    case None => []
    case Some(cnt) => [Fill(codepage, cnt)]
  }

  /** The terminated output buffer of the two-pass conversion. */
  function TwoPass(conv: Converter, codepage: Codepage, ibuf: seq<byte>): (r: Result<seq<char16>>)
    ensures r.Success? ==> conv.measure(codepage, ibuf).Some?
    ensures r.Success? ==> |r.value| == conv.measure(codepage, ibuf).value + 1
    ensures r.Success? ==> r.value[|r.value| - 1] == 0
    ensures r.Failure? ==> r.error in {PlatformError(MeasureCallText), PlatformError(FillCallText)}
    ensures forall w :: Decodes(conv, codepage, ibuf, w) ==> r == Success(w + [0])
    ensures match conv.measure(codepage, ibuf)
      case None => r == Failure(PlatformError(MeasureCallText))
      case Some(cnt) =>
        match conv.fill(codepage, ibuf, cnt)
        case None => r == Failure(PlatformError(FillCallText))
        case Some(w) =>
          && r.Success? && |r.value| == cnt + 1 && r.value[cnt] == 0
          && forall i :: 0 <= i < cnt ==> r.value[i] == if i < |w| then w[i] else 0
  {
    match conv.measure(codepage, ibuf)
    case None => Failure(PlatformError(MeasureCallText))
    case Some(cnt) =>
      match conv.fill(codepage, ibuf, cnt)
      case None => Failure(PlatformError(FillCallText))
      case Some(w) =>
        OverwriteWhole(Zeros(cnt), w);
        Success(Overwrite(Zeros(cnt), w) + [0])
  }

  /** Convert `ibuf` as the source does, step by step. */
  method ConvertToUnicode(conv: Converter, codepage: Codepage, ibuf: seq<byte>)
    returns (r: Result<seq<char16>>, ghost calls: seq<Call>)
    ensures r == TwoPass(conv, codepage, ibuf)
    ensures calls == TwoPassCalls(conv, codepage, ibuf)
  {
    var measured := conv.measure(codepage, ibuf);
    calls := [Measure(codepage)];
    if measured.None? {
      r := Failure(PlatformError(MeasureCallText));
      return;
    }
    var cnt := measured.value;
    var obuf := Zeros(cnt);
    var written := conv.fill(codepage, ibuf, cnt);
    calls := calls + [Fill(codepage, cnt)];
    if written.None? {
      r := Failure(PlatformError(FillCallText));
      return;
    }
    obuf := Overwrite(obuf, written.value);
    obuf := obuf + [0];
    r := Success(obuf);
  }
}
