/** The vote tally read from the free text of a plenary-session detail ("نتيجة التصويت").
    The text after the marker is either a unanimous vote or a tally of labelled counts
    (those in favour, those against, the abstentions) and an outcome phrase. */
module Votes {
  import opened Text
  import opened Numbers

  const VoteMarker := "نتيجة التصويت"
  const UnanimousWord := "الإجماع"
  const YesLabel := "الموافقون"
  const NoLabel := "المعارضون"
  const AbstainLabel := "الممتنعون"
  /** "nobody", which the abstention pattern accepts in place of a number. */
  const NobodyWord := "لا أحد"
  const RejectedPhrase := "رفضه مجلس النواب"
  const ApprovedPhrase := "صادقه مجلس النواب"

  /** The character class `[:：]`: an ASCII colon or a full-width colon (U+FF1A). */
  predicate IsColon(c: char) {
    c == ':' || c == '：'
  }

  datatype Outcome = Approved | Rejected

  /** `{"unanimous": True}`, or a tally whose absent keys are None. One outcome field
      holds "rejected" or "approved", so the two can never both be present. */
  datatype Vote =
    | Unanimous
    | Tally(yes: Option<nat>, no: Option<nat>, abstain: Option<nat>, outcome: Option<Outcome>)
  {
    /** The dictionary built for this vote has no key at all. */
    predicate IsEmpty() {
      Tally? && yes.None? && no.None? && abstain.None? && outcome.None?
    }
  }

  /** The end of the run of whitespace starting at `j` (what a greedy `\s*` consumes). */
  function SkipSpaces(s: string, j: nat): (k: nat)
    requires j <= |s|
    decreases |s| - j
    ensures j <= k <= |s| && (k == |s| || !IsSpace(s[k]))
    ensures forall m :: j <= m < k ==> IsSpace(s[m])
  {
    if j < |s| && IsSpace(s[j]) then SkipSpaces(s, j + 1) else j
  }

  /** The end of the run of digits starting at `j` (what a greedy `\d+` consumes). */
  function DigitsEnd(s: string, j: nat): (k: nat)
    requires j <= |s|
    decreases |s| - j
    ensures j <= k <= |s| && (k == |s| || !IsDigit(s[k]))
    ensures AllDigits(s[j..k])
  {
    if j < |s| && IsDigit(s[j]) then DigitsEnd(s, j + 1) else j
  }

  /** The number read by the pattern `tag\s*[:：]\s*(\d+)` when a match starts at `i`
      (with `orNobody`, the pattern `tag\s*[:：]\s*(\d+|لا أحد)`, in which "لا أحد" reads as
      0), or None when no match starts at `i`. Whitespace and colons are disjoint, and so are
      digits and the first letter of "لا أحد", so the greedy reading is the only one. */
  function LabelledAt(s: string, tag: string, orNobody: bool, i: nat): (r: Option<nat>)
    requires i <= |s|
    ensures r.Some? ==> OccursAt(s, tag, i)
  {
    if !OccursAt(s, tag, i) then None
    else ColonAt(s, SkipSpaces(s, i + |tag|), orNobody)
  }

  /** What `[:：]\s*` followed by the group reads at `j`. */
  function ColonAt(s: string, j: nat, orNobody: bool): (r: Option<nat>)
    requires j <= |s|
  {
    if j == |s| || !IsColon(s[j]) then None
    else CountAt(s, SkipSpaces(s, j + 1), orNobody)
  }

  /** What the group `(\d+)` (with `orNobody`, `(\d+|لا أحد)`) reads at `k`. */
  function CountAt(s: string, k: nat, orNobody: bool): (r: Option<nat>)
    requires k <= |s|
  {
    var e := DigitsEnd(s, k);
    if e > k then Some(Value(s[k..e]))
    else if orNobody && OccursAt(s, NobodyWord, k) then Some(0)
    else None
  }

  /** The leftmost position at or after `from` where the pattern matches: where
      `re.search` finds it. */
  function FirstMatch(s: string, tag: string, orNobody: bool, from: nat): (r: Option<nat>)
    requires from <= |s|
    decreases |s| - from
    ensures r.Some? ==> from <= r.value <= |s| && LabelledAt(s, tag, orNobody, r.value).Some?
    ensures r.Some? ==> forall k :: from <= k < r.value ==> LabelledAt(s, tag, orNobody, k).None?
    ensures r.None? ==> forall k :: from <= k <= |s| ==> LabelledAt(s, tag, orNobody, k).None?
  {
    if LabelledAt(s, tag, orNobody, from).Some? then Some(from)
    else if from == |s| then None
    else FirstMatch(s, tag, orNobody, from + 1)
  }

  /** `re.search(pattern, s)`, then the number its group reads; None when nothing matches. */
  function SearchCount(s: string, tag: string, orNobody: bool): (r: Option<nat>)
    ensures r.None? <==> forall k :: 0 <= k <= |s| ==> LabelledAt(s, tag, orNobody, k).None?
    ensures r.Some? ==> exists i :: 0 <= i <= |s| && LabelledAt(s, tag, orNobody, i) == r
                                    && forall k :: 0 <= k < i ==> LabelledAt(s, tag, orNobody, k).None?
  {
    match FirstMatch(s, tag, orNobody, 0)
    case None => None
    case Some(i) => LabelledAt(s, tag, orNobody, i)
  }

  /** The vote read from `voteText`, the stripped text after the last "نتيجة التصويت". */
  function ParseVote(voteText: string): (v: Vote)
    ensures v.Unanimous? <==> Contains(voteText, UnanimousWord)
    ensures v.Tally? ==> (v.outcome == Some(Rejected) <==> Contains(voteText, RejectedPhrase))
    ensures v.Tally? ==> (v.outcome == Some(Approved) <==>
                            !Contains(voteText, RejectedPhrase) && Contains(voteText, ApprovedPhrase))
    ensures v.Tally? ==> v.yes == SearchCount(voteText, YesLabel, false)
    ensures v.Tally? ==> v.no == SearchCount(voteText, NoLabel, false)
    ensures v.Tally? ==> v.abstain == SearchCount(voteText, AbstainLabel, true)
  {
    if Contains(voteText, UnanimousWord) then Unanimous
    else
      Tally(SearchCount(voteText, YesLabel, false),
            SearchCount(voteText, NoLabel, false),
            SearchCount(voteText, AbstainLabel, true),
            if Contains(voteText, RejectedPhrase) then Some(Rejected)
            else if Contains(voteText, ApprovedPhrase) then Some(Approved)
            else None)
  }

  /** A greedy `\s*` from `j` stops at `k` when `s[j..k]` is blank and `s[k]` is not. */
  lemma {:induction false} SkipSpacesTo(s: string, j: nat, k: nat)
    requires j <= k <= |s|
    requires forall m :: j <= m < k ==> IsSpace(s[m])
    requires k == |s| || !IsSpace(s[k])
    ensures SkipSpaces(s, j) == k
    decreases k - j
  {
    if j < k {
      SkipSpacesTo(s, j + 1, k);
    }
  }

  /** A greedy `\d+` from `j` stops at `e` when `s[j..e]` is digits and `s[e]` is not. */
  lemma {:induction false} DigitsEndTo(s: string, j: nat, e: nat)
    requires j <= e <= |s|
    requires forall m :: j <= m < e ==> IsDigit(s[m])
    requires e == |s| || !IsDigit(s[e])
    ensures DigitsEnd(s, j) == e
    decreases e - j
  {
    if j < e {
      DigitsEndTo(s, j + 1, e);
    }
  }

  /** The tag at `i` followed by blanks up to `j` hands over to what follows at `j`. */
  lemma TagThenBlanks(s: string, tag: string, orNobody: bool, i: nat, j: nat)
    requires OccursAt(s, tag, i) && i + |tag| <= j <= |s|
    requires forall m :: i + |tag| <= m < j ==> IsSpace(s[m])
    requires j == |s| || !IsSpace(s[j])
    ensures LabelledAt(s, tag, orNobody, i) == ColonAt(s, j, orNobody)
  {
    SkipSpacesTo(s, i + |tag|, j);
  }

  /** A colon at `j` followed by blanks up to `k` hands over to the group at `k`. */
  lemma ColonThenBlanks(s: string, orNobody: bool, j: nat, k: nat)
    requires j < k <= |s| && IsColon(s[j])
    requires forall m :: j < m < k ==> IsSpace(s[m])
    requires k == |s| || !IsSpace(s[k])
    ensures ColonAt(s, j, orNobody) == CountAt(s, k, orNobody)
  {
    SkipSpacesTo(s, j + 1, k);
  }

  /** Digits from `k` to `e`, followed by a non-digit, read as their value. */
  lemma CountOfDigits(s: string, orNobody: bool, k: nat, e: nat)
    requires k < e <= |s|
    requires forall m :: k <= m < e ==> IsDigit(s[m])
    requires e == |s| || !IsDigit(s[e])
    ensures AllDigits(s[k..e]) && CountAt(s, k, orNobody) == Some(Value(s[k..e]))
  {
    DigitsEndTo(s, k, e);
  }

  /** "لا أحد" at `k` reads as 0 with the abstention pattern and as nothing without it. */
  lemma CountOfNobody(s: string, orNobody: bool, k: nat)
    requires OccursAt(s, NobodyWord, k)
    ensures CountAt(s, k, orNobody) == if orNobody then Some(0) else None
  {
    assert s[k] == NobodyWord[0];
    DigitsEndTo(s, k, k);
  }

  /** The layout `tag\s*[:：]\s*(\d+)` at `i`: the tag, blanks up to the colon at `j`, blanks
      up to `k`, and the maximal run of digits from `k` to `e`. */
  predicate DigitLayout(s: string, tag: string, i: nat, j: nat, k: nat, e: nat) {
    && OccursAt(s, tag, i) && i + |tag| <= j < k < e <= |s|
    && (forall m :: i + |tag| <= m < j ==> IsSpace(s[m]))
    && IsColon(s[j])
    && (forall m :: j < m < k ==> IsSpace(s[m]))
    && AllDigits(s[k..e]) && (e == |s| || !IsDigit(s[e]))
  }

  /** The layout `tag\s*[:：]\s*لا أحد` at `i`, with the colon at `j` and "لا أحد" at `k`. */
  predicate NobodyLayout(s: string, tag: string, i: nat, j: nat, k: nat) {
    && OccursAt(s, tag, i) && i + |tag| <= j < k && OccursAt(s, NobodyWord, k)
    && (forall m :: i + |tag| <= m < j ==> IsSpace(s[m]))
    && IsColon(s[j])
    && (forall m :: j < m < k ==> IsSpace(s[m]))
  }

  /** The first occurrence of `tag` in `s` is at `i`. */
  predicate FirstAt(s: string, tag: string, i: nat) {
    OccursAt(s, tag, i) && forall m :: 0 <= m < i ==> !OccursAt(s, tag, m)
  }

  /** A match laid out as digits reads the value of those digits. */
  lemma LabelledAtDigits(s: string, tag: string, orNobody: bool, i: nat, j: nat, k: nat, e: nat)
    requires DigitLayout(s, tag, i, j, k, e)
    ensures LabelledAt(s, tag, orNobody, i) == Some(Value(s[k..e]))
  {
    assert forall m :: k <= m < e ==> s[m] == s[k..e][m - k];
    TagThenBlanks(s, tag, orNobody, i, j);
    ColonThenBlanks(s, orNobody, j, k);
    CountOfDigits(s, orNobody, k, e);
  }

  /** A match laid out with "لا أحد" reads 0 with the abstention pattern and nothing without it. */
  lemma LabelledAtNobody(s: string, tag: string, orNobody: bool, i: nat, j: nat, k: nat)
    requires NobodyLayout(s, tag, i, j, k)
    ensures LabelledAt(s, tag, orNobody, i) == if orNobody then Some(0) else None
  {
    TagThenBlanks(s, tag, orNobody, i, j);
    assert s[k] == NobodyWord[0];
    ColonThenBlanks(s, orNobody, j, k);
    CountOfNobody(s, orNobody, k);
  }

  /** Conversely, whatever a match at `i` reads comes from one of the two layouts: digits
      worth the value read, or (with the abstention pattern only) "لا أحد", read as 0. */
  lemma LabelledAtShape(s: string, tag: string, orNobody: bool, i: nat)
    requires i <= |s| && LabelledAt(s, tag, orNobody, i).Some?
    ensures || (exists j: nat, k: nat, e: nat :: DigitLayout(s, tag, i, j, k, e)
                                  && LabelledAt(s, tag, orNobody, i) == Some(Value(s[k..e])))
            || (orNobody && LabelledAt(s, tag, orNobody, i) == Some(0)
                && exists j: nat, k: nat :: NobodyLayout(s, tag, i, j, k))
  {
    var j := SkipSpaces(s, i + |tag|);
    var k := SkipSpaces(s, j + 1);
    var e := DigitsEnd(s, k);
    if e > k {
      assert DigitLayout(s, tag, i, j, k, e);
    } else {
      assert NobodyLayout(s, tag, i, j, k);
    }
  }

  /** When the first occurrence of the tag starts a match, `re.search` reads that match. */
  lemma SearchCountAt(s: string, tag: string, orNobody: bool, i: nat)
    requires i <= |s| && FirstAt(s, tag, i) && LabelledAt(s, tag, orNobody, i).Some?
    ensures SearchCount(s, tag, orNobody) == LabelledAt(s, tag, orNobody, i)
  {
    assert forall m :: 0 <= m < i ==> LabelledAt(s, tag, orNobody, m).None?;
    var r := FirstMatch(s, tag, orNobody, 0);
    assert r == Some(i);
  }

  /** A whole tally: each label's first occurrence is laid out as above (the counts in favour
      and against as digits, the abstentions as "لا أحد"), the approval phrase occurs and the
      rejection phrase and "الإجماع" do not; the vote is read as those two counts, no
      abstention and an approval. */
  lemma TallyOfLayout(s: string, iy: nat, jy: nat, ky: nat, ey: nat, iN: nat, jN: nat, kN: nat, eN: nat,
                      ia: nat, ja: nat, ka: nat)
    requires FirstAt(s, YesLabel, iy) && DigitLayout(s, YesLabel, iy, jy, ky, ey)
    requires FirstAt(s, NoLabel, iN) && DigitLayout(s, NoLabel, iN, jN, kN, eN)
    requires FirstAt(s, AbstainLabel, ia) && NobodyLayout(s, AbstainLabel, ia, ja, ka)
    requires !Contains(s, UnanimousWord) && !Contains(s, RejectedPhrase) && Contains(s, ApprovedPhrase)
    ensures ParseVote(s) == Tally(Some(Value(s[ky..ey])), Some(Value(s[kN..eN])), Some(0), Some(Approved))
  {
    LabelledAtDigits(s, YesLabel, false, iy, jy, ky, ey);
    SearchCountAt(s, YesLabel, false, iy);
    LabelledAtDigits(s, NoLabel, false, iN, jN, kN, eN);
    SearchCountAt(s, NoLabel, false, iN);
    LabelledAtNobody(s, AbstainLabel, true, ia, ja, ka);
    SearchCountAt(s, AbstainLabel, true, ia);
  }
}
