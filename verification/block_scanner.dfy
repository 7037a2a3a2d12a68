/** The block scanner of milestone1.py (`extract_blocks_from_rules`): every
    non-overlapping left-to-right match of quote, decimal digits, one capital
    letter, quote in the free-text rules, quotes removed, each block once in
    order of first appearance. */
module BlockScanner {
  import opened Collections

  predicate IsDigit(ch: char) {
    '0' <= ch <= '9'
  }

  predicate IsUpper(ch: char) {
    'A' <= ch <= 'Z'
  }

  /** Either kind of quote the pattern accepts around a block. */
  predicate IsQuote(ch: char) {
    ch == '"' || ch == '\''
  }

  /** A block label: one or more digits followed by exactly one capital letter. */
  predicate IsLabel(x: string) {
    |x| >= 2 && IsUpper(x[|x| - 1]) && forall k :: 0 <= k < |x| - 1 ==> IsDigit(x[k])
  }

  /** The end of the run of digits of `s` that starts at `k`. */
  function DigitsEnd(s: string, k: nat): (e: nat)
    requires k <= |s|
    ensures k <= e <= |s|
    ensures forall j :: k <= j < e ==> IsDigit(s[j])
    ensures e < |s| ==> !IsDigit(s[e])
    decreases |s| - k
  {
    if k < |s| && IsDigit(s[k]) then DigitsEnd(s, k + 1) else k
  }

  /** `s[i..e]` is a quote, a block label and a quote. */
  predicate QuotedLabelAt(s: string, i: nat, e: nat) {
    i + 4 <= e <= |s| && IsQuote(s[i]) && IsQuote(s[e - 1]) && IsLabel(s[i + 1..e - 1])
  }

  /** The digit run after the opening quote of a quoted label ends at its letter. */
  lemma LabelDigitsEnd(s: string, i: nat, e: nat)
    requires QuotedLabelAt(s, i, e)
    ensures DigitsEnd(s, i + 1) == e - 2
  {
    var x := s[i + 1..e - 1];
    assert forall j :: i + 1 <= j < e - 2 ==> s[j] == x[j - i - 1] && IsDigit(s[j]);
    assert s[e - 2] == x[|x| - 1];
    DigitsEndFrom(s, i + 1, e - 2);
  }

  /** A run of digits up to a non-digit is where `DigitsEnd` stops. */
  lemma {:induction false} DigitsEndFrom(s: string, k: nat, e: nat)
    requires k <= e < |s| && !IsDigit(s[e])
    requires forall j :: k <= j < e ==> IsDigit(s[j])
    ensures DigitsEnd(s, k) == e
    decreases e - k
  {
    if k < e {
      DigitsEndFrom(s, k + 1, e);
    }
  }

  /** The end of the match that starts at `i`, if the pattern matches there.
      The digit run is taken whole: a shorter run would be followed by a
      digit, which the letter class refuses. */
  function MatchAt(s: string, i: nat): (r: Option<nat>)
    requires i <= |s|
    ensures r.Some? ==> QuotedLabelAt(s, i, r.value)
    ensures forall e: nat :: QuotedLabelAt(s, i, e) ==> r == Some(e)
  {
    forall e: nat | QuotedLabelAt(s, i, e)
      ensures DigitsEnd(s, i + 1) == e - 2
    {
      LabelDigitsEnd(s, i, e);
    }
    if i < |s| && IsQuote(s[i]) then
      var e := DigitsEnd(s, i + 1);
      if e > i + 1 && e + 1 < |s| && IsUpper(s[e]) && IsQuote(s[e + 1]) then Some(e + 2) else None
    else None
  }

  /** The blocks quoted in `s` from position `i` on, in order. */
  function ScanFrom(s: string, i: nat): (r: seq<string>)
    requires i <= |s|
    ensures forall k :: 0 <= k < |r| ==> IsLabel(r[k])
    ensures forall k :: 0 <= k < |r| ==>
              exists j :: i <= j && j + |r[k]| + 2 <= |s| && IsQuote(s[j]) && s[j + 1..j + 1 + |r[k]|] == r[k] &&
                IsQuote(s[j + 1 + |r[k]|])
    decreases |s| - i
  {
    if i == |s| then []
    else match MatchAt(s, i)
      case Some(e) =>
        var x := s[i + 1..e - 1];
        assert s[i + 1..i + 1 + |x|] == x;
        [x] + ScanFrom(s, e)
      case None => ScanFrom(s, i + 1)
  }

  /** `re.findall` of the block pattern, with the quotes stripped. */
  function Scan(s: string): seq<string> {
    ScanFrom(s, 0)
  }

  /** One rule row: its 'RULES' text, absent when the key is missing or not a string. */
  datatype RuleRow = RuleRow(text: Option<string>)

  /** Every block found in the rows, in row order and left to right within a row. */
  function Found(rows: seq<RuleRow>): (r: seq<string>)
    ensures forall k :: 0 <= k < |r| ==> IsLabel(r[k])
    decreases |rows|
  {
    if rows == [] then []
    else
      var last := rows[|rows| - 1];
      Found(rows[..|rows| - 1]) + (if last.text.Some? then Scan(last.text.value) else [])
  }

  /** `extract_blocks_from_rules`. */
  function ExtractBlocks(rows: seq<RuleRow>): (r: seq<string>)
    ensures Distinct(r)
    ensures forall x :: x in r <==> x in Found(rows)
    ensures forall x :: x in r ==> IsLabel(x)
    ensures forall i, j :: 0 <= i < j < |r| ==> IndexOf(Found(rows), r[i]) < IndexOf(Found(rows), r[j])
  {
    DedupSpec(Found(rows));
    Dedup(Found(rows))
  }

  /** A quoted label on its own is found, quotes removed. */
  lemma ScanQuotedLabel(x: string, open: char, close: char)
    requires IsLabel(x) && IsQuote(open) && IsQuote(close)
    ensures Scan([open] + x + [close]) == [x]
  {
    var s := [open] + x + [close];
    var e := DigitsEnd(s, 1);
    assert forall j :: 1 <= j < |x| ==> s[j] == x[j - 1] && IsDigit(s[j]);
    assert s[|x|] == x[|x| - 1];
    assert e == |x|;
    assert MatchAt(s, 0) == Some(|s|);
    assert s[1..|s| - 1] == x;
    assert ScanFrom(s, |s|) == [];
    assert ScanFrom(s, 0) == [x] + ScanFrom(s, |s|);
  }
}
