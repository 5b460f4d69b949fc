/** The readings of one law's detail page. The page is a list of sections (".dp-section"),
    one per legislative reading; each has a title (".section-title") and a list of blocks
    (".dp-block"), each block a caption (".dp-block-l span") and detail lines
    (".dp-block-r span"). The caption decides which field of the reading a detail line may set. */
module Readings {
  import opened Text
  import opened Numbers
  import opened Votes

  const OfficeLabel := "مكتب مجلس النواب"
  const CommitteeLabel := "اللجنة"
  const PlenaryLabel := "الجلسة العامة"
  /** The deposit date is announced by this phrase; it is cut after the phrase with a colon. */
  const DepositMarker := "تاريخ إحالته على المجلس"
  const DepositSplit := "تاريخ إحالته على المجلس:"
  const CommissionMarker := "تمت إحالته على لجنة"
  /** The commission name ends before the first "في" ("in") after the marker. */
  const CommissionEnd := "في"

  /** A block; `caption` is None when the block has no ".dp-block-l span". */
  datatype Block = Block(caption: Option<string>, details: seq<string>)

  /** A section; `title` is None when it has no ".section-title". */
  datatype Section = Section(title: Option<string>, blocks: seq<Block>)

  /** A detail page. `fault == Some(k)` says that handling section `k` raises an error other
      than a missing element (a stale element, a failing page load when `k == 0`), which
      ends the extraction of this page; `k >= |sections|` is the same as no fault. */
  datatype DetailPage = DetailPage(sections: seq<Section>, fault: Option<nat>)

  /** The dictionary built for one section: "reading" and the optional keys. */
  datatype Reading = Reading(stage: string, depositDate: Option<string>,
                             commission: Option<string>, vote: Option<Vote>)

  datatype BlockKind = Office | Committee | Plenary | Unrecognized

  /** The `if`/`elif` chain on the stripped block caption: the first caption it contains wins. */
  function Classify(caption: string): (k: BlockKind)
  {
    if Contains(caption, OfficeLabel) then Office
    else if Contains(caption, CommitteeLabel) then Committee
    else if Contains(caption, PlenaryLabel) then Plenary
    else Unrecognized
  }

  /** The date after the last "تاريخ إحالته على المجلس:", stripped. */
  function DepositOf(t: string): (d: string)
    ensures !Contains(d, DepositSplit)
  {
    var rest := SplitLast(t, DepositSplit);
    StripAvoids(rest, DepositSplit);
    Strip(rest)
  }

  /** The name after the last "تمت إحالته على لجنة", cut at the first "في", stripped. */
  function CommissionOf(t: string): (c: string)
    ensures !Contains(c, CommissionEnd)
  {
    var name := SplitFirst(SplitLast(t, CommissionMarker), CommissionEnd);
    StripAvoids(name, CommissionEnd);
    Strip(name)
  }

  /** The vote read from the stripped text after the last "نتيجة التصويت". */
  function VoteOf(t: string): Vote {
    ParseVote(Strip(SplitLast(t, VoteMarker)))
  }

  /** Whether the stripped detail line `t` sets the field that blocks of this kind own. */
  predicate Touches(kind: BlockKind, t: string) {
    match kind
    case Office => Contains(t, DepositMarker)
    case Committee => Contains(t, CommissionMarker)
    case Plenary => Contains(t, VoteMarker) && !VoteOf(t).IsEmpty()
    case Unrecognized => false
  }

  /** The reading with the field this kind owns set from `t`. */
  function Overwrite(kind: BlockKind, r: Reading, t: string): Reading {
    match kind
    case Office => r.(depositDate := Some(DepositOf(t)))
    case Committee => r.(commission := Some(CommissionOf(t)))
    case Plenary => r.(vote := Some(VoteOf(t)))
    case Unrecognized => r
  }

  /** One detail line of a block of the given kind. */
  function ApplyDetail(kind: BlockKind, r: Reading, raw: string): Reading {
    var t := Strip(raw);
    if Touches(kind, t) then Overwrite(kind, r, t) else r
  }

  /** The detail lines of one block, in order. */
  function ApplyDetails(kind: BlockKind, r: Reading, ds: seq<string>): Reading
    decreases |ds|
  {
    if ds == [] then r else ApplyDetail(kind, ApplyDetails(kind, r, ds[..|ds| - 1]), ds[|ds| - 1])
  }

  /** One block: skipped without a caption, otherwise dispatched on its stripped caption. */
  function ApplyBlock(r: Reading, b: Block): Reading {
    match b.caption
    case None => r
    case Some(l) => ApplyDetails(Classify(Strip(l)), r, b.details)
  }

  /** The blocks of one section, in order. */
  function ApplyBlocks(r: Reading, bs: seq<Block>): Reading
    decreases |bs|
  {
    if bs == [] then r else ApplyBlock(ApplyBlocks(r, bs[..|bs| - 1]), bs[|bs| - 1])
  }

  /** The reading a section contributes: none without a title or with an empty one. */
  function SectionReading(sec: Section): (r: Option<Reading>)
    ensures r.Some? <==> sec.title.Some? && Strip(sec.title.value) != []
    ensures r.Some? ==> r.value.stage == Strip(sec.title.value)
  {
    match sec.title
    case None => None
    case Some(title) =>
      var start := Reading(Strip(title), None, None, None);
      var r := ApplyBlocks(start, sec.blocks);
      StageKept(start, sec.blocks);
      if r.stage == [] then None else Some(r)
  }

  /** The readings of a list of sections, in section order. */
  function ReadingsOf(ss: seq<Section>): (rs: seq<Reading>)
    ensures |rs| <= |ss|
    ensures forall i :: 0 <= i < |rs| ==> rs[i].stage != []
    decreases |ss|
  {
    if ss == [] then []
    else
      ReadingsOf(ss[..|ss| - 1])
        + match SectionReading(ss[|ss| - 1]) case None => [] case Some(r) => [r]
  }

  /** How many sections are handled before the page's extraction stops. */
  function Handled(page: DetailPage): (n: nat)
    ensures n <= |page.sections|
  {
    match page.fault
    case None => |page.sections|
    case Some(k) => if k < |page.sections| then k else |page.sections|
  }

  /** `law["readings"]` after the detail page has been visited. */
  function DetailReadings(page: DetailPage): seq<Reading> {
    ReadingsOf(page.sections[..Handled(page)])
  }

  // ---- Lemmas ----

  /** No block changes the stage title. */
  lemma {:induction false} StageKept(r: Reading, bs: seq<Block>)
    ensures ApplyBlocks(r, bs).stage == r.stage
    decreases |bs|
  {
    if bs != [] {
      StageKept(r, bs[..|bs| - 1]);
      var b := bs[|bs| - 1];
      if b.caption.Some? {
        DetailsKeepOthers(Classify(Strip(b.caption.value)), ApplyBlocks(r, bs[..|bs| - 1]), b.details);
      }
    }
  }

  /** `a` and `b` agree on every field that a block of kind `kind` does not own. */
  predicate SameExcept(kind: BlockKind, a: Reading, b: Reading) {
    && a.stage == b.stage
    && (kind != Office ==> a.depositDate == b.depositDate)
    && (kind != Committee ==> a.commission == b.commission)
    && (kind != Plenary ==> a.vote == b.vote)
  }

  /** A block's detail lines change only the field its kind owns. */
  lemma {:induction false} DetailsKeepOthers(kind: BlockKind, r: Reading, ds: seq<string>)
    ensures SameExcept(kind, ApplyDetails(kind, r, ds), r)
    decreases |ds|
  {
    if ds != [] {
      DetailsKeepOthers(kind, r, ds[..|ds| - 1]);
    }
  }

  /** Lines that do not touch the field leave the reading as it was. */
  lemma {:induction false} UntouchedKeeps(kind: BlockKind, r: Reading, ds: seq<string>)
    requires forall j :: 0 <= j < |ds| ==> !Touches(kind, Strip(ds[j]))
    ensures ApplyDetails(kind, r, ds) == r
    decreases |ds|
  {
    if ds != [] {
      UntouchedKeeps(kind, r, ds[..|ds| - 1]);
    }
  }

  /** A later matching detail overwrites an earlier one: the field holds what the last line
      that touches it says, whatever came before. */
  lemma {:induction false} LastMatchWins(kind: BlockKind, r: Reading, ds: seq<string>, i: nat)
    requires i < |ds| && Touches(kind, Strip(ds[i]))
    requires forall j :: i < j < |ds| ==> !Touches(kind, Strip(ds[j]))
    ensures ApplyDetails(kind, r, ds) == Overwrite(kind, r, Strip(ds[i]))
    decreases |ds|
  {
    var init := ds[..|ds| - 1];
    if i == |ds| - 1 {
      DetailsKeepOthers(kind, r, init);
    } else {
      LastMatchWins(kind, r, init, i);
    }
  }

  /** A vote is attached only when its dictionary has a key: a section that starts without
      a vote ends without one or with a non-empty one. */
  lemma {:induction false} AttachedVotesNonEmpty(r: Reading, bs: seq<Block>)
    requires r.vote.None?
    ensures ApplyBlocks(r, bs).vote.None? || !ApplyBlocks(r, bs).vote.value.IsEmpty()
    decreases |bs|
  {
    if bs != [] {
      AttachedVotesNonEmpty(r, bs[..|bs| - 1]);
      var b := bs[|bs| - 1];
      if b.caption.Some? {
        DetailVotesNonEmpty(Classify(Strip(b.caption.value)), ApplyBlocks(r, bs[..|bs| - 1]), b.details);
      }
    }
  }

  /** The detail lines of one block keep a reading's vote absent or non-empty. */
  lemma {:induction false} DetailVotesNonEmpty(kind: BlockKind, r: Reading, ds: seq<string>)
    requires r.vote.None? || !r.vote.value.IsEmpty()
    ensures ApplyDetails(kind, r, ds).vote.None? || !ApplyDetails(kind, r, ds).vote.value.IsEmpty()
    decreases |ds|
  {
    if ds != [] {
      DetailVotesNonEmpty(kind, r, ds[..|ds| - 1]);
    }
  }

  /** The readings of consecutive runs of sections are consecutive. */
  lemma {:induction false} ReadingsAppend(a: seq<Section>, b: seq<Section>)
    ensures ReadingsOf(a + b) == ReadingsOf(a) + ReadingsOf(b)
    decreases |b|
  {
    if b == [] {
      assert a + b == a;
    } else {
      var b0 := b[..|b| - 1];
      assert (a + b)[..|a + b| - 1] == a + b0;
      assert (a + b)[|a + b| - 1] == b[|b| - 1];
      ReadingsAppend(a, b0);
    }
  }

  /** An interrupted page keeps the readings of the sections handled before the fault, which
      are the first readings the whole page would give. */
  lemma FaultKeepsPrefix(page: DetailPage)
    ensures DetailReadings(page) <= ReadingsOf(page.sections)
  {
    var n := Handled(page);
    var ss := page.sections;
    assert ss == ss[..n] + ss[n..];
    ReadingsAppend(ss[..n], ss[n..]);
  }

  /** A section is kept exactly when it has a title whose stripped text is not empty; both
      the skip on a missing title and the final `if reading_data.get("reading")` are this. */
  lemma {:induction false} ReadingsStages(ss: seq<Section>)
    ensures |ReadingsOf(ss)| == |Titled(ss)|
    ensures forall i :: 0 <= i < |Titled(ss)| ==> ReadingsOf(ss)[i].stage == Titled(ss)[i]
    decreases |ss|
  {
    if ss != [] {
      ReadingsStages(ss[..|ss| - 1]);
    }
  }

  /** The stripped titles of the sections that have a non-empty one. */
  function Titled(ss: seq<Section>): seq<string>
    decreases |ss|
  {
    if ss == [] then []
    else
      var sec := ss[|ss| - 1];
      Titled(ss[..|ss| - 1])
        + if sec.title.Some? && Strip(sec.title.value) != [] then [Strip(sec.title.value)] else []
  }

  /** When a line has the deposit phrase but not the phrase with its colon, `split` finds no
      separator and the whole line is taken as the date. */
  lemma DepositWithoutColon(t: string)
    requires t == Strip(t) && Contains(t, DepositMarker) && !Contains(t, DepositSplit)
    ensures DepositOf(t) == t
  {
  }

  // ---- The loops of the source ----

  /** The loop over the detail lines of one block. */
  method ReadBlock(kind: BlockKind, start: Reading, ds: seq<string>) returns (data: Reading)
    ensures data == ApplyDetails(kind, start, ds)
  {
    data := start;
    var j := 0;
    while j < |ds|
      invariant 0 <= j <= |ds|
      invariant data == ApplyDetails(kind, start, ds[..j])
    {
      assert ds[..j + 1][..j] == ds[..j];
      data := ApplyDetail(kind, data, ds[j]);
      j := j + 1;
    }
    assert ds[..j] == ds;
  }

  /** The loop over the blocks of a section. */
  method ReadSection(sec: Section) returns (r: Option<Reading>)
    ensures r == SectionReading(sec)
  {
    if sec.title.None? {
      return None;
    }
    var start := Reading(Strip(sec.title.value), None, None, None);
    var data := start;
    var bs := sec.blocks;
    var i := 0;
    while i < |bs|
      invariant 0 <= i <= |bs|
      invariant data == ApplyBlocks(start, bs[..i])
    {
      assert bs[..i + 1][..i] == bs[..i];
      if bs[i].caption.Some? {
        data := ReadBlock(Classify(Strip(bs[i].caption.value)), data, bs[i].details);
      }
      i := i + 1;
    }
    assert bs[..i] == bs;
    StageKept(start, bs);
    if data.stage == [] {
      r := None;
    } else {
      r := Some(data);
    }
  }

  /** The loop over the sections of a detail page, which a fault ends early. */
  method ReadDetail(page: DetailPage) returns (readings: seq<Reading>)
    ensures readings == DetailReadings(page)
  {
    readings := ReadSections(page.sections[..Handled(page)]);
  }

  /** The section loop: each section's reading, when it has one, is appended. */
  method ReadSections(ss: seq<Section>) returns (readings: seq<Reading>)
    ensures readings == ReadingsOf(ss)
  {
    readings := [];
    var i := 0;
    while i < |ss|
      invariant 0 <= i <= |ss|
      invariant readings == ReadingsOf(ss[..i])
    {
      ReadingsStep(ss, i);
      var r := ReadSection(ss[i]);
      if r.Some? {
        readings := readings + [r.value];
      }
      i := i + 1;
    }
    assert ss[..i] == ss;
  }

  /** One more section, read. */
  lemma ReadingsStep(ss: seq<Section>, i: nat)
    requires i < |ss|
    ensures ReadingsOf(ss[..i + 1])
            == ReadingsOf(ss[..i]) + match SectionReading(ss[i]) case None => [] case Some(r) => [r]
  {
    assert ss[..i + 1][..i] == ss[..i];
  }
}
