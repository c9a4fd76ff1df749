/** The ordering of records and the English ordinals of leaderboard ranks. */
module Ranking {
  import opened Text
  import opened Records
  import opened Sorting

  /**
   * `compareRecords`: newest year first, then by status ("current" before
   * "former"), then by title.
   */
  function CompareRecords(a: Record, b: Record): (r: int)
    ensures a.year != b.year ==> (r < 0 <==> a.year > b.year)
    ensures a.year == b.year && a.status != b.status ==> (r < 0 <==> a.status == Current)
    ensures a.year == b.year && a.status == b.status ==> (r == 0 <==> a.title == b.title)
  {
    StatusOrder();
    CompareAntisymmetric(StatusText(Current), StatusText(Former));
    CompareZero(a.title, b.title);
    if a.year != b.year then b.year - a.year
    else if a.status != b.status then Compare(StatusText(a.status), StatusText(b.status))
    else Compare(a.title, b.title)
  }

  function Sign(x: int): int {
    if x < 0 then -1 else if x > 0 then 1 else 0
  }

  lemma StatusOrder()
    ensures Compare(StatusText(Current), StatusText(Former)) == -1
  {
    assert StatusText(Current)[0] == 'c' && StatusText(Former)[0] == 'f';
  }

  /** The three keys in order of precedence. */
  lemma CompareRecordsKeys(a: Record, b: Record)
    ensures a.year > b.year ==> CompareRecords(a, b) < 0
    ensures a.year == b.year && a.status == Current && b.status == Former ==> CompareRecords(a, b) < 0
    ensures a.year == b.year && a.status == b.status ==> CompareRecords(a, b) == Compare(a.title, b.title)
  {
    StatusOrder();
  }

  /** Swapping the arguments flips the sign. */
  lemma CompareRecordsAntisymmetric(a: Record, b: Record)
    ensures Sign(CompareRecords(b, a)) == -Sign(CompareRecords(a, b))
  {
    CompareAntisymmetric(StatusText(a.status), StatusText(b.status));
    CompareAntisymmetric(a.title, b.title);
  }

  /** Two records compare equal exactly when year, status and title are all equal. */
  lemma CompareRecordsZero(a: Record, b: Record)
    ensures CompareRecords(a, b) == 0 <==> a.year == b.year && a.status == b.status && a.title == b.title
  {
    CompareZero(StatusText(a.status), StatusText(b.status));
    CompareZero(a.title, b.title);
  }

  lemma CompareRecordsTransitive(a: Record, b: Record, c: Record)
    requires CompareRecords(a, b) <= 0 && CompareRecords(b, c) <= 0
    ensures CompareRecords(a, c) <= 0
  {
    StatusOrder();
    CompareZero(StatusText(a.status), StatusText(b.status));
    CompareZero(StatusText(b.status), StatusText(c.status));
    CompareAntisymmetric(StatusText(Current), StatusText(Former));
    if a.year == b.year == c.year && a.status == b.status == c.status {
      CompareTransitiveWeak(a.title, b.title, c.title);
    }
  }

  /** `compareRecords` is a comparator `Array.prototype.sort` can rely on. */
  lemma CompareRecordsIsTotalPreorder()
    ensures IsTotalPreorder(CompareRecords)
  {
    forall a, b ensures CompareRecords(a, b) <= 0 || CompareRecords(b, a) <= 0 {
      CompareRecordsAntisymmetric(a, b);
    }
    forall a, b, c | CompareRecords(a, b) <= 0 && CompareRecords(b, c) <= 0
      ensures CompareRecords(a, c) <= 0
    {
      CompareRecordsTransitive(a, b, c);
    }
  }

  /** `records.sort(compareRecords)`. */
  function SortRecords(records: seq<Record>): seq<Record> {
    SortBy(records, CompareRecords)
  }

  /** The sorted records are the input records, newest first. */
  lemma SortRecordsSorted(records: seq<Record>)
    ensures SortedBy(SortRecords(records), CompareRecords)
    ensures multiset(SortRecords(records)) == multiset(records)
    ensures |SortRecords(records)| == |records|
    ensures forall i, j :: 0 <= i < j < |records| ==> SortRecords(records)[i].year >= SortRecords(records)[j].year
  {
    CompareRecordsIsTotalPreorder();
    SortBySorted(records, CompareRecords);
    assert |multiset(SortRecords(records))| == |records|;
    var sorted := SortRecords(records);
    forall i, j | 0 <= i < j < |records| ensures sorted[i].year >= sorted[j].year {
      assert CompareRecords(sorted[i], sorted[j]) <= 0;
    }
  }

  /** `ordinal`. */
  function Ordinal(rank: nat): (s: string)
    ensures |s| == |NatToString(rank)| + 2 && s[..|s| - 2] == NatToString(rank)
    ensures s[|s| - 2..] in {"st", "nd", "rd", "th"}
  {
    var mod100 := rank % 100;
    if 11 <= mod100 <= 13 then NatToString(rank) + "th"
    else if rank % 10 == 1 then NatToString(rank) + "st"
    else if rank % 10 == 2 then NatToString(rank) + "nd"
    else if rank % 10 == 3 then NatToString(rank) + "rd"
    else NatToString(rank) + "th"
  }

  /**
   * The suffix a reader picks from the written digits: "th" after a tens
   * digit of 1, otherwise by the last digit.
   */
  function SuffixFromDigits(digits: string): string
    requires |digits| >= 1
  {
    if |digits| >= 2 && digits[|digits| - 2] == '1' then "th"
    else if digits[|digits| - 1] == '1' then "st"
    else if digits[|digits| - 1] == '2' then "nd"
    else if digits[|digits| - 1] == '3' then "rd"
    else "th"
  }

  lemma DigitCharInjective(d: nat, e: nat)
    requires d < 10 && e < 10 && DigitChar(d) == DigitChar(e)
    ensures d == e
  {
  }

  /** The last two decimal digits of a number. */
  lemma LastTwoDigits(rank: nat)
    ensures rank % 100 == 10 * ((rank / 10) % 10) + rank % 10
  {
    var q := rank / 100;
    var t := (rank / 10) % 10;
    assert rank / 10 == 10 * q + t;
  }

  /** `ordinal` depends on the tens digit and the last digit only. */
  lemma OrdinalByDigitValues(rank: nat)
    ensures var tens, last := (rank / 10) % 10, rank % 10;
      Ordinal(rank) == NatToString(rank) +
        if tens == 1 then "th"
        else if last == 1 then "st" else if last == 2 then "nd" else if last == 3 then "rd" else "th"
  {
    LastTwoDigits(rank);
  }

  /**
   * The arithmetic of `ordinal` agrees with the digits it prints: the rank in
   * decimal followed by the suffix its last two digits call for.
   */
  lemma OrdinalReadsDigits(rank: nat)
    ensures Ordinal(rank) == NatToString(rank) + SuffixFromDigits(NatToString(rank))
  {
    OrdinalByDigitValues(rank);
    var digits := NatToString(rank);
    var last := rank % 10;
    var tens := (rank / 10) % 10;
    assert digits[|digits| - 1] == DigitChar(last);
    assert DigitChar(1) == '1' && DigitChar(2) == '2' && DigitChar(3) == '3';
    if rank >= 10 {
      TensDigit(rank);
      if digits[|digits| - 2] == '1' {
        DigitCharInjective(tens, 1);
      }
    } else {
      assert tens == 0;
    }
    if digits[|digits| - 1] == '1' { DigitCharInjective(last, 1); }
    if digits[|digits| - 1] == '2' { DigitCharInjective(last, 2); }
    if digits[|digits| - 1] == '3' { DigitCharInjective(last, 3); }
  }

  lemma OneDigitOrdinals()
    ensures Ordinal(1) == "1st" && Ordinal(2) == "2nd" && Ordinal(3) == "3rd" && Ordinal(4) == "4th"
  {
    assert NatToString(1) == "1" && NatToString(2) == "2";
    assert NatToString(3) == "3" && NatToString(4) == "4";
  }

  lemma TeenOrdinals()
    ensures Ordinal(11) == "11th" && Ordinal(12) == "12th" && Ordinal(13) == "13th"
  {
    assert NatToString(11) == NatToString(1) + "1" == "11";
    assert NatToString(12) == NatToString(1) + "2" == "12";
    assert NatToString(13) == NatToString(1) + "3" == "13";
  }

  lemma LargerOrdinals()
    ensures Ordinal(21) == "21st" && Ordinal(101) == "101st" && Ordinal(112) == "112th"
  {
    assert NatToString(21) == NatToString(2) + "1" == "21";
    assert NatToString(10) == NatToString(1) + "0" == "10";
    assert NatToString(101) == NatToString(10) + "1" == "101";
    assert NatToString(11) == NatToString(1) + "1" == "11";
    assert NatToString(112) == NatToString(11) + "2" == "112";
  }
}
