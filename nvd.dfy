/**
 * The part of the github.com/daehee/nvd library that the lint core calls.
 * The library itself is not part of this model: ParseCVEID and
 * PadCVESequence are given the behaviour the core relies on, and the
 * identifier predicates and the repair function are parameters.
 */
module Nvd {
  import opened Base
  import opened GoStrings

  /** nvd.IsCVEID, nvd.IsCVEIDStrict and nvd.FixCVEID, as uninterpreted functions. */
  datatype Oracle = Oracle(
    isCVEID: string -> bool,
    isCVEIDStrict: string -> bool,
    fixCVEID: string -> string)

  /**
   * nvd.ParseCVEID: the year and the sequence number read from the second
   * and third '-'-separated parts (a part that is not a numeral reads as 0).
   * None when there are fewer than three parts.
   */
  function ParseCVEID(id: string): (r: Option<(nat, nat)>)
    ensures r.Some? <==> |Split(id, '-')| >= 3
  {
    var parts := Split(id, '-');
    if |parts| < 3 then None else Some((Atoi(parts[1]), Atoi(parts[2])))
  }

  /** nvd.PadCVESequence: the sequence number printed with "%04d". */
  function PadCVESequence(sequence: nat): (r: string)
    ensures |r| >= 4
    ensures IsDecimal(r) && DecimalValue(r) == sequence
    ensures |Itoa(sequence)| >= 4 ==> r == Itoa(sequence)
  {
    var s := Itoa(sequence);
    AtoiItoa(sequence);
    if |s| < 4 then
      ZerosValue(4 - |s|);
      DecimalConcat(Zeros(4 - |s|), s);
      Zeros(4 - |s|) + s
    else s
  }

  /** An identifier "<prefix>-<year>-<sequence>" parses to the values of its two numerals. */
  lemma ParseCVEIDOfParts(prefix: string, year: string, num: string)
    requires '-' !in prefix
    requires IsDecimal(year) && IsDecimal(num)
    ensures ParseCVEID(prefix + "-" + year + "-" + num) == Some((DecimalValue(year), DecimalValue(num)))
  {
    assert '-' !in year by { assert forall i :: 0 <= i < |year| ==> year[i] != '-'; }
    assert '-' !in num by { assert forall i :: 0 <= i < |num| ==> num[i] != '-'; }
    SplitNoSep(prefix, '-');
    SplitNoSep(year, '-');
    SplitNoSep(num, '-');
    SplitConcat(year, num, '-');
    SplitConcat(prefix, year + "-" + num, '-');
    assert prefix + "-" + year + "-" + num == prefix + "-" + (year + "-" + num);
  }
}
