/** The detector's ranked candidates and the choice made among them, with
    its preference for UTF-8. */
module Detect {
  import opened Types

  /** The number of DetectEncodingInfo slots the caller hands the detector. */
  const Slots: nat := 5

  /** What the detector leaves behind: the codepage of each slot, in rank
      order, and the number of slots it scored. */
  datatype DetectOutput = DetectOutput(encoding: seq<Codepage>, nscores: int)

  /** The detector fills at most the slots it was given. */
  type Detection = d: DetectOutput | |d.encoding| == Slots && 0 <= d.nscores <= Slots
    witness DetectOutput([0, 0, 0, 0, 0], 0)

  /** The detector's choice: 65001 if UTF-8 is among the scored candidates,
      else the first slot. */
  function DetectedCodepage(d: Detection): (cp: Codepage)
    ensures (exists i :: 0 <= i < d.nscores && d.encoding[i] == Utf8) ==> cp == Utf8
    ensures (forall i :: 0 <= i < d.nscores ==> d.encoding[i] != Utf8) ==> cp == d.encoding[0]
    ensures d.nscores > 0 ==> cp in d.encoding[..d.nscores]
  {
    if Utf8 in d.encoding[..d.nscores] then Utf8 else d.encoding[0]
  }

  /** The selection loop: start from the top-ranked slot, and stop at the
      first scored slot that names UTF-8. */
  method SelectCandidate(d: Detection) returns (codepage: Codepage)
    ensures codepage == DetectedCodepage(d)
    ensures codepage == Utf8 || codepage == d.encoding[0]
  {
    codepage := d.encoding[0];
    var i := 0;
    while i < d.nscores
      invariant 0 <= i <= d.nscores
      invariant codepage == d.encoding[0]
      invariant forall j :: 0 <= j < i ==> d.encoding[j] != Utf8
    {
      if d.encoding[i] == Utf8 {
        assert d.encoding[..d.nscores][i] == Utf8;
        codepage := Utf8;
        break;
      }
      i := i + 1;
    }
  }

  /** UTF-8 wins from any rank, not only from the top. */
  lemma Utf8AtAnyRank(d: Detection, k: nat)
    requires k < d.nscores && d.encoding[k] == Utf8
    ensures DetectedCodepage(d) == Utf8
  {
  }
}
