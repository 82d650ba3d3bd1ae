/**
 * `BuildAppHelper::VersionInfo` applied to a raw version-info string such as
 * `1.2.3+build-121554.branch-release.date-2022-08-15.sha-257ba870`.
 *
 * The pattern `^(.+)\+build-(\d+)\.branch-(.+)\.date-(.+)\.sha-(.+)$` is
 * modelled by where a match cuts the subject. A backtracking matcher tries
 * the longest first group first, then the longest second, and so on, so the
 * match it reports is the greatest cut in lexicographic order. One search
 * per group finds it, and `Match` states that it is exactly that cut.
 */
module BuildAppHelper {
  import opened Wrappers
  import opened Text

  /** The part selectors. `PartSha` is `0xF`, so they are not bit flags. */
  const PartAll := 0x0
  const PartVersion := 0x1
  const PartBuild := 0x2
  const PartBranch := 0x4
  const PartDate := 0x8
  const PartSha := 0xF

  /** The five capture groups. */
  datatype VersionParts = VersionParts(version: string, build: string, branch: string, date: string, sha: string)

  /** The string the five groups and the literal separators spell. */
  function Whole(p: VersionParts): string
  {
    p.version + "+build-" + p.build + ".branch-" + p.branch + ".date-" + p.date + ".sha-" + p.sha
  }

  /** The shape every group must have: `.+` is non-empty and stops at a newline, `\d+` is digits. */
  predicate WellFormed(p: VersionParts)
  {
    |p.version| > 0 && NoLineFeed(p.version)
    && |p.build| > 0 && AllDigits(p.build)
    && |p.branch| > 0 && NoLineFeed(p.branch)
    && |p.date| > 0 && NoLineFeed(p.date)
    && |p.sha| > 0 && NoLineFeed(p.sha)
  }

  // ---------------------------------------------------------------------
  // Cuts

  /** Where a match puts `+build-`, `.branch-`, `.date-` and `.sha-` in the subject. */
  datatype Cut = Cut(build: int, branch: int, date: int, sha: int)

  /** `.sha-` at `p4`, after a non-empty date group starting at `lo`, before a non-empty sha group. */
  predicate ShaAt(b: string, lo: int, p4: int)
  {
    lo < p4 && p4 + 5 < |b| && OccursAt(b, ".sha-", p4)
  }

  predicate DateAt(b: string, lo: int, p3: int, p4: int)
  {
    lo < p3 && OccursAt(b, ".date-", p3) && ShaAt(b, p3 + 6, p4)
  }

  predicate BranchAt(b: string, lo: nat, p2: int, p3: int, p4: int)
  {
    lo < p2 <= |b| && AllDigits(b[lo..p2]) && OccursAt(b, ".branch-", p2) && DateAt(b, p2 + 8, p3, p4)
  }

  /** A way the whole pattern matches `b`. */
  predicate CutOk(b: string, c: Cut)
  {
    NoLineFeed(b) && 0 < c.build && OccursAt(b, "+build-", c.build)
    && BranchAt(b, c.build + 7, c.branch, c.date, c.sha)
  }

  /** `d` comes no later than `c` in the order a backtracking matcher tries cuts in reverse. */
  predicate LexLe(d: Cut, c: Cut)
  {
    d.build < c.build
    || (d.build == c.build && (d.branch < c.branch
    || (d.branch == c.branch && (d.date < c.date
    || (d.date == c.date && d.sha <= c.sha)))))
  }

  // ---------------------------------------------------------------------
  // The greedy search

  /** The last `.sha-` at or before `k`: where the greedy date group stops. */
  function ShaSearch(b: string, lo: int, k: int): (r: Option<int>)
    ensures r.Some? ==> ShaAt(b, lo, r.value) && r.value <= k
    ensures forall p4 :: ShaAt(b, lo, p4) && p4 <= k ==> r.Some? && p4 <= r.value
    decreases k - lo
  {
    if k <= lo then None
    else if ShaAt(b, lo, k) then Some(k)
    else ShaSearch(b, lo, k - 1)
  }

  function ShaFrom(b: string, lo: int): (r: Option<int>)
    ensures r.Some? ==> ShaAt(b, lo, r.value)
    ensures forall p4 :: ShaAt(b, lo, p4) ==> r.Some? && p4 <= r.value
  {
    ShaSearch(b, lo, |b|)
  }

  /** The last `.date-` at or before `k` that the rest of the pattern can follow. */
  function DateSearch(b: string, lo: int, k: int): (r: Option<(int, int)>)
    ensures r.Some? ==> DateAt(b, lo, r.value.0, r.value.1) && r.value.0 <= k
    ensures forall p3, p4 :: DateAt(b, lo, p3, p4) && p3 <= k ==>
      r.Some? && (p3 < r.value.0 || (p3 == r.value.0 && p4 <= r.value.1))
    decreases k - lo
  {
    if k <= lo then None
    else if OccursAt(b, ".date-", k) && ShaFrom(b, k + 6).Some? then Some((k, ShaFrom(b, k + 6).value))
    else DateSearch(b, lo, k - 1)
  }

  function DateFrom(b: string, lo: int): (r: Option<(int, int)>)
    ensures r.Some? ==> DateAt(b, lo, r.value.0, r.value.1)
    ensures forall p3, p4 :: DateAt(b, lo, p3, p4) ==>
      r.Some? && (p3 < r.value.0 || (p3 == r.value.0 && p4 <= r.value.1))
  {
    DateSearch(b, lo, |b|)
  }

  /** The last `.branch-` at or before `k` after a digit run that the rest of the pattern can follow. */
  function BranchSearch(b: string, lo: nat, k: int): (r: Option<(int, int, int)>)
    ensures r.Some? ==> BranchAt(b, lo, r.value.0, r.value.1, r.value.2) && r.value.0 <= k
    ensures forall p2, p3, p4 :: BranchAt(b, lo, p2, p3, p4) && p2 <= k ==>
      r.Some? && (p2 < r.value.0 || (p2 == r.value.0
        && (p3 < r.value.1 || (p3 == r.value.1 && p4 <= r.value.2))))
    decreases k - lo
  {
    if k <= lo then None
    else if k <= |b| && AllDigits(b[lo..k]) && OccursAt(b, ".branch-", k) && DateFrom(b, k + 8).Some? then
      var d := DateFrom(b, k + 8).value;
      Some((k, d.0, d.1))
    else BranchSearch(b, lo, k - 1)
  }

  function BranchFrom(b: string, lo: nat): (r: Option<(int, int, int)>)
    ensures r.Some? ==> BranchAt(b, lo, r.value.0, r.value.1, r.value.2)
    ensures forall p2, p3, p4 :: BranchAt(b, lo, p2, p3, p4) ==>
      r.Some? && (p2 < r.value.0 || (p2 == r.value.0
        && (p3 < r.value.1 || (p3 == r.value.1 && p4 <= r.value.2))))
  {
    BranchSearch(b, lo, |b|)
  }

  /** The last `+build-` at or before `k` that the rest of the pattern can follow. */
  function BuildSearch(b: string, k: int): (r: Option<Cut>)
    requires NoLineFeed(b)
    ensures r.Some? ==> CutOk(b, r.value) && r.value.build <= k
    ensures forall d :: CutOk(b, d) && d.build <= k ==> r.Some? && LexLe(d, r.value)
    decreases k
  {
    if k <= 0 then None
    else if OccursAt(b, "+build-", k) && BranchFrom(b, k + 7).Some? then
      var t := BranchFrom(b, k + 7).value;
      Some(Cut(k, t.0, t.1, t.2))
    else BuildSearch(b, k - 1)
  }

  /** The cut a backtracking matcher reports, if any. */
  function Match(b: string): (r: Option<Cut>)
    ensures r.Some? ==> CutOk(b, r.value)
    ensures r.Some? ==> forall d :: CutOk(b, d) ==> LexLe(d, r.value)
    ensures r.None? <==> forall d :: !CutOk(b, d)
  {
    if !NoLineFeed(b) then None else BuildSearch(b, |b|)
  }

  // ---------------------------------------------------------------------
  // Groups and cuts

  /** The groups a cut gives. */
  function PartsOf(b: string, c: Cut): (p: VersionParts)
    requires CutOk(b, c)
  {
    VersionParts(b[..c.build], b[c.build + 7..c.branch], b[c.branch + 8..c.date], b[c.date + 6..c.sha], b[c.sha + 5..])
  }

  /** The cut groups give. */
  function CutOf(p: VersionParts): Cut
  {
    var p2 := |p.version| + 7 + |p.build|;
    var p3 := p2 + 8 + |p.branch|;
    Cut(|p.version|, p2, p3, p3 + 6 + |p.date|)
  }

  lemma NoLineFeedSlice(b: string, i: int, j: int)
    requires NoLineFeed(b) && 0 <= i <= j <= |b|
    ensures NoLineFeed(b[i..j])
  {
    assert forall k :: 0 <= k < j - i ==> b[i..j][k] == b[i + k];
  }

  /** Adjacent slices join. */
  lemma SliceJoin(b: string, i: int, j: int)
    requires 0 <= i <= j <= |b|
    ensures b[..i] + b[i..j] == b[..j]
  {
  }

  /** A cut yields well-formed groups that spell the subject again. */
  lemma PartsOfCut(b: string, c: Cut)
    requires CutOk(b, c)
    ensures WellFormed(PartsOf(b, c))
    ensures Whole(PartsOf(b, c)) == b
    ensures CutOf(PartsOf(b, c)) == c
  {
    PartsOfCutWellFormed(b, c);
    PartsOfCutWhole(b, c);
  }

  lemma PartsOfCutWellFormed(b: string, c: Cut)
    requires CutOk(b, c)
    ensures WellFormed(PartsOf(b, c))
  {
    NoLineFeedSlice(b, 0, c.build);
    NoLineFeedSlice(b, c.branch + 8, c.date);
    NoLineFeedSlice(b, c.date + 6, c.sha);
    NoLineFeedSlice(b, c.sha + 5, |b|);
  }

  lemma PartsOfCutWhole(b: string, c: Cut)
    requires CutOk(b, c)
    ensures Whole(PartsOf(b, c)) == b
  {
    var p := PartsOf(b, c);
    assert b[c.build..c.build + 7] == "+build-";
    assert b[c.branch..c.branch + 8] == ".branch-";
    assert b[c.date..c.date + 6] == ".date-";
    assert b[c.sha..c.sha + 5] == ".sha-";
    SliceJoin(b, c.build, c.build + 7);
    var w1 := p.version + "+build-";
    assert w1 == b[..c.build + 7];
    SliceJoin(b, c.build + 7, c.branch);
    var w2 := w1 + p.build;
    assert w2 == b[..c.branch];
    SliceJoin(b, c.branch, c.branch + 8);
    var w3 := w2 + ".branch-";
    assert w3 == b[..c.branch + 8];
    SliceJoin(b, c.branch + 8, c.date);
    var w4 := w3 + p.branch;
    assert w4 == b[..c.date];
    SliceJoin(b, c.date, c.date + 6);
    var w5 := w4 + ".date-";
    assert w5 == b[..c.date + 6];
    SliceJoin(b, c.date + 6, c.sha);
    var w6 := w5 + p.date;
    assert w6 == b[..c.sha];
    SliceJoin(b, c.sha, c.sha + 5);
    var w7 := w6 + ".sha-";
    assert w7 == b[..c.sha + 5];
    SliceJoin(b, c.sha + 5, |b|);
    assert Whole(p) == w7 + p.sha;
    assert b[..|b|] == b;
  }

  /** `b` starts with `x + y`: then it starts with `x`, and `y` follows. */
  lemma Piece(b: string, x: string, y: string)
    requires |x| + |y| <= |b| && b[..|x| + |y|] == x + y
    ensures b[..|x|] == x && b[|x|..|x| + |y|] == y
  {
    assert b[..|x|] == (x + y)[..|x|];
    assert b[|x|..|x| + |y|] == (x + y)[|x|..];
  }

  /** The subject well-formed groups spell holds no line feed. */
  lemma WholeNoLineFeed(p: VersionParts)
    requires WellFormed(p)
    ensures NoLineFeed(Whole(p))
  {
    AllDigitsNoLineFeed(p.build);
  }

  /** Well-formed groups spell a subject that their cut matches, and give the groups back. */
  lemma CutOfParts(p: VersionParts)
    requires WellFormed(p)
    ensures CutOk(Whole(p), CutOf(p))
    ensures PartsOf(Whole(p), CutOf(p)) == p
  {
    CutOfSlices(p);
    WholeNoLineFeed(p);
  }

  /** Where `CutOf` cuts the subject, the groups and the separators lie. */
  lemma CutOfSlices(p: VersionParts)
    ensures var b, c := Whole(p), CutOf(p);
      && |b| == c.sha + 5 + |p.sha|
      && b[..c.build] == p.version && OccursAt(b, "+build-", c.build)
      && b[c.build + 7..c.branch] == p.build && OccursAt(b, ".branch-", c.branch)
      && b[c.branch + 8..c.date] == p.branch && OccursAt(b, ".date-", c.date)
      && b[c.date + 6..c.sha] == p.date && OccursAt(b, ".sha-", c.sha)
      && b[c.sha + 5..] == p.sha
  {
    var b := Whole(p);
    var w1 := p.version + "+build-";
    var w2 := w1 + p.build;
    var w3 := w2 + ".branch-";
    var w4 := w3 + p.branch;
    var w5 := w4 + ".date-";
    var w6 := w5 + p.date;
    var w7 := w6 + ".sha-";
    assert b == w7 + p.sha;
    assert b[..|b|] == b;
    Piece(b, w7, p.sha);
    Piece(b, w6, ".sha-");
    Piece(b, w5, p.date);
    Piece(b, w4, ".date-");
    Piece(b, w3, p.branch);
    Piece(b, w2, ".branch-");
    Piece(b, w1, p.build);
    Piece(b, p.version, "+build-");
    assert b[|w7|..] == p.sha;
  }

  lemma AllDigitsNoLineFeed(s: string)
    requires AllDigits(s)
    ensures NoLineFeed(s)
  {
    forall i | 0 <= i < |s|
      ensures s[i] != '\n'
    {
      assert IsDigit(s[i]);
    }
  }

  // ---------------------------------------------------------------------
  // VersionInfo

  /** The groups of the match, `None` when `preg_match` finds none; `$` also matches before a final line feed. */
  function VersionMatch(content: string): Option<VersionParts>
  {
    var b := DollarBody(content);
    match Match(b)
    case None => None
    case Some(c) => Some(PartsOf(b, c))
  }

  /** `VersionInfo` on a raw string: the selected group, `None` for no match or an unknown part. */
  function VersionInfo(content: string, part: int): (r: Option<string>)
    ensures r.Some? ==> VersionMatch(content).Some?
    ensures part !in {PartAll, PartVersion, PartBuild, PartBranch, PartDate, PartSha} ==> r.None?
  {
    match VersionMatch(content)
    case None => None
    case Some(p) =>
      if part == PartAll then Some(Whole(p))
      else if part == PartVersion then Some(p.version)
      else if part == PartBuild then Some(p.build)
      else if part == PartBranch then Some(p.branch)
      else if part == PartDate then Some(p.date)
      else if part == PartSha then Some(p.sha)
      else None
  }

  /**
   * A match spells the subject again from well-formed groups: `PartAll`
   * returns the subject, `PartBuild` a non-empty digit run.
   */
  lemma VersionMatchRoundTrip(content: string)
    requires VersionMatch(content).Some?
    ensures WellFormed(VersionMatch(content).value)
    ensures Whole(VersionMatch(content).value) == DollarBody(content)
    ensures VersionInfo(content, PartAll) == Some(DollarBody(content))
  {
    var b := DollarBody(content);
    PartsOfCut(b, Match(b).value);
  }

  /**
   * Against any well-formed way of writing the subject: the match exists,
   * and its first group is at least as long, then its second, third and
   * fourth in turn.
   */
  lemma VersionMatchGreedy(content: string, q: VersionParts)
    requires WellFormed(q) && Whole(q) == DollarBody(content)
    ensures VersionMatch(content).Some?
    ensures var p := VersionMatch(content).value;
      |q.version| < |p.version|
      || (|q.version| == |p.version| && (|q.build| < |p.build|
      || (|q.build| == |p.build| && (|q.branch| < |p.branch|
      || (|q.branch| == |p.branch| && |q.date| <= |p.date|)))))
  {
    var b := DollarBody(content);
    CutOfParts(q);
    var c := Match(b).value;
    PartsOfCut(b, c);
    assert LexLe(CutOf(q), c);
  }

  /** No match exactly when the subject cannot be written from well-formed groups. */
  lemma VersionMatchNone(content: string)
    ensures VersionMatch(content).None? <==> forall q :: WellFormed(q) ==> Whole(q) != DollarBody(content)
  {
    var b := DollarBody(content);
    if VersionMatch(content).Some? {
      VersionMatchRoundTrip(content);
    } else {
      forall q | WellFormed(q)
        ensures Whole(q) != b
      {
        CutOfParts(q);
      }
    }
  }

  /** A character of `b` inside a slice equal to `piece` is a character of `piece`. */
  lemma InPiece(b: string, i: int, j: int, piece: string, k: int)
    requires 0 <= i <= k < j <= |b| && b[i..j] == piece
    ensures b[k] in piece
  {
    assert b[k] == piece[k - i];
  }

  /** Past the `+` of `+build-`, the subject holds no `+`. */
  lemma NoPlusAfterBuild(q: VersionParts)
    requires WellFormed(q)
    requires '+' !in q.branch && '+' !in q.date && '+' !in q.sha
    ensures forall k :: CutOf(q).build < k < |Whole(q)| ==> Whole(q)[k] != '+'
  {
    forall k | CutOf(q).build < k < |Whole(q)|
      ensures Whole(q)[k] != '+'
    {
      NoPlusAt(q, k);
    }
  }

  lemma NoPlusAt(q: VersionParts, k: int)
    requires WellFormed(q)
    requires '+' !in q.branch && '+' !in q.date && '+' !in q.sha
    requires CutOf(q).build < k < |Whole(q)|
    ensures Whole(q)[k] != '+'
  {
    CutOfSlices(q);
    var b := Whole(q);
    var c := CutOf(q);
    if k < c.branch + 8 {
      NoPlusInBuild(b, c, q.build, k);
    } else {
      NoPlusInTail(b, c, q.branch, q.date, q.sha, k);
    }
  }

  /** From `+build-` to the end of `.branch-`: a `+` only at the start. */
  lemma NoPlusInBuild(b: string, c: Cut, build: string, k: int)
    requires OccursAt(b, "+build-", c.build) && OccursAt(b, ".branch-", c.branch)
    requires c.build + 7 <= c.branch && b[c.build + 7..c.branch] == build && AllDigits(build)
    requires c.build < k < c.branch + 8
    ensures b[k] != '+'
  {
    if k < c.build + 7 { OccursAtChar(b, "+build-", c.build, k - c.build); }
    else if k < c.branch { InPiece(b, c.build + 7, c.branch, build, k); assert IsDigit(b[k]); }
    else { OccursAtChar(b, ".branch-", c.branch, k - c.branch); }
  }

  /** After `.branch-`: groups without `+` and separators without `+`. */
  lemma NoPlusInTail(b: string, c: Cut, branch: string, date: string, sha: string, k: int)
    requires OccursAt(b, ".date-", c.date) && OccursAt(b, ".sha-", c.sha)
    requires 0 <= c.branch && c.branch + 8 <= c.date && b[c.branch + 8..c.date] == branch && '+' !in branch
    requires c.date + 6 <= c.sha && b[c.date + 6..c.sha] == date && '+' !in date
    requires b[c.sha + 5..] == sha && '+' !in sha
    requires c.branch + 8 <= k < |b|
    ensures b[k] != '+'
  {
    if k < c.date { InPiece(b, c.branch + 8, c.date, branch, k); }
    else if k < c.date + 6 { OccursAtChar(b, ".date-", c.date, k - c.date); }
    else if k < c.sha { InPiece(b, c.date + 6, c.sha, date, k); }
    else if k < c.sha + 5 { OccursAtChar(b, ".sha-", c.sha, k - c.sha); }
    else { InPiece(b, c.sha + 5, |b|, sha, k); }
  }

  /** Past the `.` of `.date-`, the subject holds a `.` only where `.sha-` starts. */
  lemma NoDotAfterDate(q: VersionParts)
    requires WellFormed(q)
    requires '.' !in q.date && '.' !in q.sha
    ensures forall k :: CutOf(q).date < k < |Whole(q)| && k != CutOf(q).sha ==> Whole(q)[k] != '.'
  {
    forall k | CutOf(q).date < k < |Whole(q)| && k != CutOf(q).sha
      ensures Whole(q)[k] != '.'
    {
      NoDotAt(q, k);
    }
  }

  lemma NoDotAt(q: VersionParts, k: int)
    requires WellFormed(q)
    requires '.' !in q.date && '.' !in q.sha
    requires CutOf(q).date < k < |Whole(q)| && k != CutOf(q).sha
    ensures Whole(q)[k] != '.'
  {
    CutOfSlices(q);
    NoDotInTail(Whole(q), CutOf(q), q.date, q.sha, k);
  }

  /** After the `.` of `.date-`: groups without `.` and a `.` only where `.sha-` starts. */
  lemma NoDotInTail(b: string, c: Cut, date: string, sha: string, k: int)
    requires OccursAt(b, ".date-", c.date) && OccursAt(b, ".sha-", c.sha)
    requires c.date + 6 <= c.sha && b[c.date + 6..c.sha] == date && '.' !in date
    requires b[c.sha + 5..] == sha && '.' !in sha
    requires c.date < k < |b| && k != c.sha
    ensures b[k] != '.'
  {
    if k < c.date + 6 { OccursAtChar(b, ".date-", c.date, k - c.date); }
    else if k < c.sha { InPiece(b, c.date + 6, c.sha, date, k); }
    else if k < c.sha + 5 { OccursAtChar(b, ".sha-", c.sha, k - c.sha); }
    else { InPiece(b, c.sha + 5, |b|, sha, k); }
  }

  /**
   * When no `+` follows the version group and no `.` follows the date
   * separator except in `.sha-`, the match is the obvious one.
   */
  lemma VersionMatchUnique(q: VersionParts)
    requires WellFormed(q)
    requires '+' !in q.branch && '+' !in q.date && '+' !in q.sha
    requires '.' !in q.date && '.' !in q.sha
    ensures Match(Whole(q)) == Some(CutOf(q))
  {
    var b := Whole(q);
    CutOfParts(q);
    NoPlusAfterBuild(q);
    NoDotAfterDate(q);
    UniqueCut(b, CutOf(q), Match(b).value);
  }

  /**
   * A cut `c` with no `+` after its `+build-` and no `.` after its `.date-`
   * but the one of `.sha-` is the only cut at or after it.
   */
  lemma UniqueCut(b: string, c: Cut, m: Cut)
    requires CutOk(b, c) && CutOk(b, m) && LexLe(c, m)
    requires forall k :: c.build < k < |b| ==> b[k] != '+'
    requires forall k :: c.date < k < |b| && k != c.sha ==> b[k] != '.'
    ensures m == c
  {
    OccursAtChar(b, "+build-", m.build, 0);
    assert m.build == c.build;
    OccursAtChar(b, ".branch-", c.branch, 0);
    DigitsEndBefore(b, c.build + 7, m.branch, c.branch);
    assert m.branch == c.branch;
    OccursAtChar(b, ".date-", m.date, 1);
    OccursAtChar(b, ".sha-", c.sha, 1);
    assert m.date != c.sha;
    OccursAtChar(b, ".date-", m.date, 0);
    assert m.date == c.date;
    OccursAtChar(b, ".sha-", m.sha, 0);
  }

  /** A digit run from `lo` ends at or before the first non-digit `k`. */
  lemma DigitsEndBefore(b: string, lo: int, p: int, k: int)
    requires 0 <= lo <= k < |b| && p <= |b| && !IsDigit(b[k])
    requires lo <= p && AllDigits(b[lo..p])
    ensures p <= k
  {
  }

  /** Under the same conditions, `VersionInfo` returns the groups the subject was written from. */
  lemma VersionMatchUniqueParts(q: VersionParts)
    requires WellFormed(q)
    requires '+' !in q.branch && '+' !in q.date && '+' !in q.sha
    requires '.' !in q.date && '.' !in q.sha
    ensures VersionMatch(Whole(q)) == Some(q)
  {
    var b := Whole(q);
    VersionMatchUnique(q);
    CutOfParts(q);
    CutOfSlices(q);
    LastOfSuffix(b, CutOf(q).sha + 5, q.sha);
    assert DollarBody(b) == b;
  }

  lemma LastOfSuffix(b: string, i: int, t: string)
    requires 0 <= i <= |b| && b[i..] == t && |t| > 0
    ensures b[|b| - 1] == t[|t| - 1]
  {
    assert b[i..][|t| - 1] == b[|b| - 1];
  }

  const ExampleVersion := "dev+build-62843.branch-dev.date-2022-04-20.sha-166fb656"

  lemma ExampleWritten()
    ensures Whole(VersionParts("dev", "62843", "dev", "2022-04-20", "166fb656")) == ExampleVersion
  {
    ExampleHead();
    ExampleTail();
  }

  lemma ExampleHead()
    ensures "dev" + "+build-" + "62843" + ".branch-" + "dev" == "dev+build-62843.branch-dev"
  {
    assert "dev" + "+build-" == "dev+build-";
    assert "dev+build-" + "62843" == "dev+build-62843";
    assert "dev+build-62843" + ".branch-" == "dev+build-62843.branch-";
    assert "dev+build-62843.branch-" + "dev" == "dev+build-62843.branch-dev";
  }

  lemma ExampleTail()
    ensures "dev+build-62843.branch-dev" + ".date-" + "2022-04-20" + ".sha-" + "166fb656" == ExampleVersion
  {
    assert "dev+build-62843.branch-dev" + ".date-" == "dev+build-62843.branch-dev.date-";
    assert "dev+build-62843.branch-dev.date-" + "2022-04-20" == "dev+build-62843.branch-dev.date-2022-04-20";
    assert "dev+build-62843.branch-dev.date-2022-04-20" + ".sha-" == "dev+build-62843.branch-dev.date-2022-04-20.sha-";
    assert "dev+build-62843.branch-dev.date-2022-04-20.sha-" + "166fb656" == ExampleVersion;
  }

  lemma ExampleMatch()
    ensures VersionMatch(ExampleVersion) == Some(VersionParts("dev", "62843", "dev", "2022-04-20", "166fb656"))
  {
    var q := VersionParts("dev", "62843", "dev", "2022-04-20", "166fb656");
    ExampleWritten();
    assert WellFormed(q);
    VersionMatchUniqueParts(q);
  }

  /** The first version string of the unit test, part by part. */
  lemma VersionInfoExample()
    ensures VersionInfo(ExampleVersion, PartVersion) == Some("dev")
    ensures VersionInfo(ExampleVersion, PartBuild) == Some("62843")
    ensures VersionInfo(ExampleVersion, PartBranch) == Some("dev")
    ensures VersionInfo(ExampleVersion, PartDate) == Some("2022-04-20")
    ensures VersionInfo(ExampleVersion, PartSha) == Some("166fb656")
    ensures VersionInfo(ExampleVersion, PartAll) == Some(ExampleVersion)
  {
    ExampleGroups();
    ExampleAll();
  }

  lemma ExampleGroups()
    ensures VersionInfo(ExampleVersion, PartVersion) == Some("dev")
    ensures VersionInfo(ExampleVersion, PartBuild) == Some("62843")
    ensures VersionInfo(ExampleVersion, PartBranch) == Some("dev")
    ensures VersionInfo(ExampleVersion, PartDate) == Some("2022-04-20")
    ensures VersionInfo(ExampleVersion, PartSha) == Some("166fb656")
  {
    ExampleMatch();
  }

  lemma ExampleAll()
    ensures VersionInfo(ExampleVersion, PartAll) == Some(ExampleVersion)
  {
    ExampleMatch();
    ExampleWritten();
  }

  /** A subject without `+` cannot hold `+build-`, so every part is `None`. */
  lemma VersionInfoNeedsPlus(content: string, part: int)
    requires '+' !in content
    ensures VersionInfo(content, part).None?
  {
    var b := DollarBody(content);
    forall d: Cut | 0 <= d.build < |b|
      ensures !CutOk(b, d)
    {
      assert b[d.build] == content[d.build];
      assert b[d.build] != '+';
    }
  }

  lemma VersionInfoMissingFile()
    ensures VersionInfo("this-file-not-exists", PartVersion).None?
  {
    VersionInfoNeedsPlus("this-file-not-exists", PartVersion);
  }

  /** The one `+` of the subject is not followed by `build-`, so nothing matches. */
  lemma VersionInfoWrongString(part: int)
    ensures VersionInfo("this.version+info-string.is-wrong", part).None?
  {
    var s := "this.version+info-string.is-wrong";
    assert DollarBody(s) == s;
    forall d: Cut | 0 <= d.build < |s|
      ensures !CutOk(s, d)
    {
      if d.build == 12 {
        assert s[12..19][1] == s[13] == 'i';
      } else {
        assert s[d.build] != '+';
        if d.build + 7 <= |s| {
          assert s[d.build..d.build + 7][0] == s[d.build];
        }
      }
    }
  }
}
