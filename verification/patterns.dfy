/**
 * The regular expressions the Nyaa provider runs over release titles and view
 * links, each written out as a matcher tried at one offset, together with the
 * leftmost-first search that `String.prototype.match` performs with them.
 *
 * Matching follows JavaScript's backtracking order: alternatives are tried left
 * to right, a greedy `?` tries its longer branch first, and a trailing `\b`
 * outside an alternation sends the matcher back into the next alternative.
 * Case-insensitive patterns consist of ASCII characters only, so outside
 * unicode mode they accept exactly the characters whose ASCII upper-case form
 * agrees with the pattern's.
 */
module Patterns {
  import opened Wrappers
  import opened Text

  // ---------------------------------------------------------------------------
  // Fixed-width alternatives of the word-bounded probes
  // ---------------------------------------------------------------------------

  /** One character position of a fixed-width alternative. */
  datatype Atom =
    | Letter(c: char)     // the character itself, ignoring ASCII case
    | Space               // `\s`
    | SpaceOrDash         // `[\s-]`

  predicate Accepts(a: Atom, c: char) {
    match a
    case Letter(p) => UpperChar(c) == UpperChar(p)
    case Space => IsSpace(c)
    case SpaceOrDash => IsSpace(c) || c == '-'
  }

  /** A literal word, matched ignoring case. */
  function Lit(w: string): (alt: seq<Atom>)
    ensures |alt| == |w|
    ensures forall i :: 0 <= i < |w| ==> alt[i] == Letter(w[i])
  {
    seq(|w|, i requires 0 <= i < |w| => Letter(w[i]))
  }

  /** `t` is accepted, character by character, by the alternative `alt`. */
  predicate Spells(t: string, alt: seq<Atom>) {
    |t| == |alt| && forall i :: 0 <= i < |t| ==> Accepts(alt[i], t[i])
  }

  /** A literal alternative accepts exactly the strings equal to it ignoring case. */
  lemma SpellsLit(t: string, w: string)
    ensures Spells(t, Lit(w)) <==> Upper(t) == Upper(w)
  {
    UpperEqualIff(t, w);
  }

  /** `\b(BD(?:-?rip)?|BluRay|WEB(?:-?rip)?|HDTV(?:-?WEB)?|DVD(?:-?rip)?|JPBD|USBD|ITABD|R1\s?DVD|R2\s?DVD|R2J|R1J)\b`,
      every optional part expanded longest branch first. */
  const SourceWords: seq<seq<Atom>> := [
    Lit("BD-rip"), Lit("BDrip"), Lit("BD"),
    Lit("BluRay"),
    Lit("WEB-rip"), Lit("WEBrip"), Lit("WEB"),
    Lit("HDTV-WEB"), Lit("HDTVWEB"), Lit("HDTV"),
    Lit("DVD-rip"), Lit("DVDrip"), Lit("DVD"),
    Lit("JPBD"), Lit("USBD"), Lit("ITABD"),
    Lit("R1") + [Space] + Lit("DVD"), Lit("R1DVD"),
    Lit("R2") + [Space] + Lit("DVD"), Lit("R2DVD"),
    Lit("R2J"), Lit("R1J")
  ]

  /** `\b(FLAC|OPUS|AAC|AC3|EAC3)\b` */
  const AudioWords: seq<seq<Atom>> := [Lit("FLAC"), Lit("OPUS"), Lit("AAC"), Lit("AC3"), Lit("EAC3")]

  /** `\b(x264|x265|HEVC|AVC)\b` */
  const VideoWords: seq<seq<Atom>> := [Lit("x264"), Lit("x265"), Lit("HEVC"), Lit("AVC")]

  /** `\b(Hi10|Hi10P)\b` */
  const Hi10Words: seq<seq<Atom>> := [Lit("Hi10"), Lit("Hi10P")]

  /** `\b(Dual[\s-]?Audio|EN\+JA)\b` */
  const DualAudioWords: seq<seq<Atom>> :=
    [Lit("Dual") + [SpaceOrDash] + Lit("Audio"), Lit("DualAudio"), Lit("EN+JA")]

  // ---------------------------------------------------------------------------
  // Word boundaries and character runs
  // ---------------------------------------------------------------------------

  predicate WordAt(s: string, i: int) {
    0 <= i < |s| && IsWordChar(s[i])
  }

  /** `\b` at offset `q`: exactly one of the neighbouring characters is a word
      character (a missing neighbour is not one). */
  predicate Boundary(s: string, q: int) {
    WordAt(s, q - 1) != WordAt(s, q)
  }

  /** Length of the run of digits starting at offset `q` (what a greedy `\d+`
      or `\d*` consumes). */
  function DigitRun(s: string, q: nat): (n: nat)
    requires q <= |s|
    ensures q + n <= |s| && AllDigits(s[q..q + n])
    ensures q + n == |s| || !IsDigit(s[q + n])
    decreases |s| - q
  {
    if q < |s| && IsDigit(s[q]) then
      var n := 1 + DigitRun(s, q + 1);
      assert s[q..q + n] == [s[q]] + s[q + 1..q + n];
      n
    else 0
  }

  /** Length of the run of whitespace starting at offset `q` (a greedy `\s*`). */
  function SpaceRun(s: string, q: nat): (n: nat)
    requires q <= |s|
    ensures q + n <= |s| && AllSpace(s[q..q + n])
    ensures q + n == |s| || !IsSpace(s[q + n])
    decreases |s| - q
  {
    if q < |s| && IsSpace(s[q]) then
      var n := 1 + SpaceRun(s, q + 1);
      assert s[q..q + n] == [s[q]] + s[q + 1..q + n];
      n
    else 0
  }

  /** Exactly `k` digits start at offset `p` (a `\d{k}` step). */
  predicate DigitsAt(s: string, p: nat, k: nat) {
    p + k <= |s| && AllDigits(s[p..p + k])
  }

  predicate CharAt(s: string, p: nat, c: char) {
    p < |s| && s[p] == c
  }

  // ---------------------------------------------------------------------------
  // Word-bounded alternations
  // ---------------------------------------------------------------------------

  /** `alt` matches at offset `p` and a word boundary follows it. */
  predicate FitsAt(s: string, p: nat, alt: seq<Atom>) {
    p + |alt| <= |s| && Spells(s[p..p + |alt|], alt) && Boundary(s, p + |alt|)
  }

  /** Index of the first alternative, from `i` on, that fits at `p`. */
  function FirstFit(s: string, p: nat, alts: seq<seq<Atom>>, i: nat): (j: Option<nat>)
    requires i <= |alts|
    ensures j.Some? ==> i <= j.value < |alts| && FitsAt(s, p, alts[j.value])
    ensures j.Some? ==> forall k :: i <= k < j.value ==> !FitsAt(s, p, alts[k])
    ensures j.None? ==> forall k :: i <= k < |alts| ==> !FitsAt(s, p, alts[k])
    decreases |alts| - i
  {
    if i == |alts| then None
    else if FitsAt(s, p, alts[i]) then Some(i)
    else FirstFit(s, p, alts, i + 1)
  }

  /** `\b(alt0|alt1|...)\b` tried at offset `p`: the end of the match, if any.
      It matches exactly when `p` is a word boundary and some alternative fits
      there, and it then spans the first alternative, in written order, that
      fits. */
  function TokenAt(s: string, p: nat, alts: seq<seq<Atom>>): (e: Option<nat>)
    requires p <= |s|
    ensures e.Some? <==> Boundary(s, p) && FirstFit(s, p, alts, 0).Some?
    ensures e.Some? ==> e.value == p + |alts[FirstFit(s, p, alts, 0).value]|
  {
    if !Boundary(s, p) then None
    else match FirstFit(s, p, alts, 0)
      case None => None
      case Some(j) => Some(p + |alts[j]|)
  }

  // ---------------------------------------------------------------------------
  // Season: /(?:Season|S|Arc)\s*(\d+|Arc)/i
  // ---------------------------------------------------------------------------

  /** One branch of the season pattern: `head`, then as much whitespace as there
      is, then a digit run or the word `Arc`. Giving back whitespace never helps,
      since the character then following is whitespace, which is neither a digit
      nor `A`. */
  function SeasonBranchAt(s: string, p: nat, head: string): (e: Option<nat>)
    requires p <= |s|
    ensures e.Some? ==> p + |head| <= e.value <= |s|
  {
    if p + |head| <= |s| && Spells(s[p..p + |head|], Lit(head)) then
      var q := p + |head| + SpaceRun(s, p + |head|);
      var d := DigitRun(s, q);
      if d > 0 then Some(q + d)
      else if q + 3 <= |s| && Spells(s[q..q + 3], Lit("Arc")) then Some(q + 3)
      else None
    else None
  }

  function SeasonAt(s: string, p: nat): (e: Option<nat>)
    requires p <= |s|
    ensures e.Some? ==> p < e.value <= |s|
  {
    var season := SeasonBranchAt(s, p, "Season");
    if season.Some? then season
    else
      var short := SeasonBranchAt(s, p, "S");
      if short.Some? then short else SeasonBranchAt(s, p, "Arc")
  }

  /** What one season branch matches: `head` ignoring case, whitespace, then a
      digit run or `Arc` ignoring case. */
  predicate SeasonBranchText(t: string, head: string) {
    && |head| < |t| && Spells(t[..|head|], Lit(head))
    && exists q :: |head| <= q < |t| && AllSpace(t[|head|..q])
                   && (AllDigits(t[q..]) || Spells(t[q..], Lit("Arc")))
  }

  /** What the season pattern matches. */
  predicate SeasonText(t: string) {
    SeasonBranchText(t, "Season") || SeasonBranchText(t, "S") || SeasonBranchText(t, "Arc")
  }

  /** A season branch match has the branch's shape, and a digit run it ends in
      is maximal. */
  lemma SeasonBranchShape(s: string, p: nat, head: string)
    requires p <= |s| && SeasonBranchAt(s, p, head).Some?
    ensures var e := SeasonBranchAt(s, p, head).value;
            && SeasonBranchText(s[p..e], head)
            && (e == |s| || !IsDigit(s[e]) || Spells(s[e - 3..e], Lit("Arc")))
  {
    var e := SeasonBranchAt(s, p, head).value;
    var h := |head|;
    var q := p + h + SpaceRun(s, p + h);
    SeasonPartsIn(s, p, e, head, q - p);
  }

  /** Season-branch parts found at their offsets in the title make season-branch
      text. */
  lemma SeasonPartsIn(s: string, p: nat, e: nat, head: string, q: nat)
    requires p <= e <= |s| && |head| <= q < e - p
    requires Spells(s[p..p + |head|], Lit(head)) && AllSpace(s[p + |head|..p + q])
    requires AllDigits(s[p + q..e]) || Spells(s[p + q..e], Lit("Arc"))
    ensures SeasonBranchText(s[p..e], head)
  {
    SubSlice(s, p, e, 0, |head|);
    SubSlice(s, p, e, |head|, q);
    SubSlice(s, p, e, q, e - p);
  }

  /** The season pattern matches only season text. */
  lemma SeasonMatchShape(s: string, p: nat)
    requires p <= |s| && SeasonAt(s, p).Some?
    ensures SeasonText(s[p..SeasonAt(s, p).value])
  {
    if SeasonBranchAt(s, p, "Season").Some? {
      SeasonBranchShape(s, p, "Season");
    } else if SeasonBranchAt(s, p, "S").Some? {
      SeasonBranchShape(s, p, "S");
    } else {
      SeasonBranchShape(s, p, "Arc");
    }
  }

  // ---------------------------------------------------------------------------
  // Resolution: /\b(?<!264|265)(?:(\d{3,4}x\d{3,4})|([1-9]\d{2,3}p))\b/
  // ---------------------------------------------------------------------------

  /** `\d{k1}x\d{k2}\b` at `p`, for one choice of the two repetition counts. */
  predicate DimensionsFit(s: string, p: nat, k1: nat, k2: nat) {
    DigitsAt(s, p, k1) && CharAt(s, p + k1, 'x') && DigitsAt(s, p + k1 + 1, k2)
    && Boundary(s, p + k1 + 1 + k2)
  }

  /** `\d{3,4}x\d{3,4}\b` at `p`, trying the counts greedily: 4 before 3. */
  function DimensionsAt(s: string, p: nat): (e: Option<nat>)
    requires p <= |s|
    ensures e.Some? ==> p < e.value <= |s|
  {
    if DimensionsFit(s, p, 4, 4) then Some(p + 9)
    else if DimensionsFit(s, p, 4, 3) then Some(p + 8)
    else if DimensionsFit(s, p, 3, 4) then Some(p + 8)
    else if DimensionsFit(s, p, 3, 3) then Some(p + 7)
    else None
  }

  /** `[1-9]\d{k}p\b` at `p`. */
  predicate ProgressiveFit(s: string, p: nat, k: nat) {
    p < |s| && '1' <= s[p] <= '9' && DigitsAt(s, p + 1, k) && CharAt(s, p + 1 + k, 'p')
    && Boundary(s, p + k + 2)
  }

  /** `[1-9]\d{2,3}p\b` at `p`, trying 3 digits before 2. */
  function ProgressiveAt(s: string, p: nat): (e: Option<nat>)
    requires p <= |s|
    ensures e.Some? ==> p < e.value <= |s|
  {
    if ProgressiveFit(s, p, 3) then Some(p + 5)
    else if ProgressiveFit(s, p, 2) then Some(p + 4)
    else None
  }

  /** The lookbehind `(?<!264|265)`: the three characters before `p` are not
      `264` or `265`. */
  predicate NotAfterCodecDigits(s: string, p: nat) {
    !(3 <= p <= |s| && (s[p - 3..p] == "264" || s[p - 3..p] == "265"))
  }

  function ResolutionAt(s: string, p: nat): (e: Option<nat>)
    requires p <= |s|
    ensures e.Some? ==> p < e.value <= |s|
  {
    if !Boundary(s, p) || !NotAfterCodecDigits(s, p) then None
    else
      var dims := DimensionsAt(s, p);
      if dims.Some? then dims else ProgressiveAt(s, p)
  }

  /** The lookbehind never rejects: every branch starts with a digit, so the `\b`
      before it needs a non-word character (or the start) at `p - 1`, which
      rules out a preceding `4` or `5`. */
  lemma ResolutionLookbehindIsRedundant(s: string, p: nat)
    requires p <= |s|
    ensures ResolutionAt(s, p) ==
              if !Boundary(s, p) then None
              else if DimensionsAt(s, p).Some? then DimensionsAt(s, p)
              else ProgressiveAt(s, p)
  {
    if Boundary(s, p) && (DimensionsAt(s, p).Some? || ProgressiveAt(s, p).Some?) {
      assert IsDigit(s[p]) by {
        if DimensionsFit(s, p, 4, 4) || DimensionsFit(s, p, 4, 3) {
          assert s[p..p + 4][0] == s[p];
        } else if DimensionsFit(s, p, 3, 4) || DimensionsFit(s, p, 3, 3) {
          assert s[p..p + 3][0] == s[p];
        }
      }
      if 3 <= p {
        assert s[p - 3..p][2] == s[p - 1];
      }
    }
  }

  /** What the resolution pattern matches: `WxH` with three or four digits on
      each side, or three or four digits not starting with `0` followed by `p`. */
  predicate ResolutionText(t: string) {
    || (exists k :: 3 <= k <= 4 && 3 <= |t| - k - 1 <= 4 && AllDigits(t[..k]) && t[k] == 'x'
                    && AllDigits(t[k + 1..]))
    || (4 <= |t| <= 5 && '1' <= t[0] <= '9' && AllDigits(t[1..|t| - 1]) && t[|t| - 1] == 'p')
  }

  /** The resolution pattern matches only resolution text, between two word
      boundaries. */
  lemma ResolutionMatchShape(s: string, p: nat)
    requires p <= |s| && ResolutionAt(s, p).Some?
    ensures var e := ResolutionAt(s, p).value;
            ResolutionText(s[p..e]) && Boundary(s, p) && Boundary(s, e)
  {
    var e := ResolutionAt(s, p).value;
    var t := s[p..e];
    if DimensionsAt(s, p).Some? {
      var k := if DimensionsFit(s, p, 4, 4) || DimensionsFit(s, p, 4, 3) then 4 else 3;
      assert t[..k] == s[p..p + k];
      assert t[k + 1..] == s[p + k + 1..e];
    } else {
      assert t[1..|t| - 1] == s[p + 1..e - 1];
    }
  }

  // ---------------------------------------------------------------------------
  // View links: /nyaa.si\/view\/(\d+)/
  // ---------------------------------------------------------------------------

  /** Offset of the digits inside a view-link match: `nyaa`, any character but a
      line terminator (the unescaped `.`), then `si/view/`. */
  const ViewPrefixLength: nat := 13

  predicate ViewPrefixAt(s: string, p: nat) {
    p + ViewPrefixLength <= |s| && s[p..p + 4] == "nyaa" && !IsLineTerminator(s[p + 4])
    && s[p + 5..p + ViewPrefixLength] == "si/view/"
  }

  function ViewIdAt(s: string, p: nat): (e: Option<nat>)
    requires p <= |s|
    ensures e.Some? ==> p + ViewPrefixLength < e.value <= |s|
  {
    if ViewPrefixAt(s, p) && DigitRun(s, p + ViewPrefixLength) > 0 then
      Some(p + ViewPrefixLength + DigitRun(s, p + ViewPrefixLength))
    else None
  }

  /** An ID match is the prefix followed by the longest run of digits, which is
      non-empty; the prefix followed by a digit always matches. */
  lemma ViewIdMatchShape(s: string, p: nat)
    requires p <= |s|
    ensures var e := ViewIdAt(s, p);
            && (e.Some? ==> && ViewPrefixAt(s, p) && AllDigits(s[p + ViewPrefixLength..e.value])
                            && (e.value == |s| || !IsDigit(s[e.value])))
            && (e.None? ==> !ViewPrefixAt(s, p) || p + ViewPrefixLength == |s|
                            || !IsDigit(s[p + ViewPrefixLength]))
  {
  }

  // ---------------------------------------------------------------------------
  // Probes and the leftmost-first search
  // ---------------------------------------------------------------------------

  /** The regular expressions of the provider. */
  datatype Probe = Season | Resolution | Source | Audio | Video | Hi10 | DualAudio | ViewId {

    /** The word-bounded alternations. */
    predicate IsWordProbe() {
      Source? || Audio? || Video? || Hi10? || DualAudio?
    }

    function Words(): seq<seq<Atom>>
      requires IsWordProbe()
    {
      match this
      case Source => SourceWords
      case Audio => AudioWords
      case Video => VideoWords
      case Hi10 => Hi10Words
      case DualAudio => DualAudioWords
    }
  }

  /** The probe tried at offset `p`: the end of the match starting there, if any.
      No probe matches the empty string. */
  function MatchAt(pr: Probe, s: string, p: nat): (e: Option<nat>)
    requires p <= |s|
    ensures e.Some? ==> p < e.value <= |s|
  {
    match pr
    case Season => SeasonAt(s, p)
    case Resolution => ResolutionAt(s, p)
    case ViewId => ViewIdAt(s, p)
    case _ =>
      WordsNonEmpty(pr);
      TokenAt(s, p, pr.Words())
  }

  /** A match: the text `s[start..end]`. */
  datatype Span = Span(start: nat, end: nat)

  /** `s.match(re)` for a non-global `re`: the match at the smallest offset, from
      `from` on, at which the probe matches. */
  function Search(pr: Probe, s: string, from: nat): (m: Option<Span>)
    requires from <= |s|
    ensures m.Some? ==> from <= m.value.start <= m.value.end <= |s|
    ensures m.Some? ==> MatchAt(pr, s, m.value.start) == Some(m.value.end)
    ensures m.Some? ==> forall q :: from <= q < m.value.start ==> MatchAt(pr, s, q).None?
    ensures m.None? ==> forall q :: from <= q <= |s| ==> MatchAt(pr, s, q).None?
    decreases |s| - from
  {
    var e := MatchAt(pr, s, from);
    if e.Some? then Some(Span(from, e.value))
    else if from == |s| then None
    else Search(pr, s, from + 1)
  }

  /** The search finds the first offset at which the probe matches. */
  lemma {:induction false} LeftmostMatch(pr: Probe, s: string, from: nat, p: nat, e: nat)
    requires from <= p <= |s| && MatchAt(pr, s, p) == Some(e)
    requires forall q :: from <= q < p ==> MatchAt(pr, s, q).None?
    ensures Search(pr, s, from) == Some(Span(p, e))
    decreases p - from
  {
    if from < p {
      LeftmostMatch(pr, s, from + 1, p, e);
    }
  }

  /** `s.match(re)?.[0] || ''`: the matched text, or the empty string. */
  function Found(pr: Probe, s: string): string {
    match Search(pr, s, 0)
    case None => ""
    case Some(m) => s[m.start..m.end]
  }

  /** A probe finds the empty string exactly when it matches nowhere: no probe
      matches the empty string, so `|| ''` only replaces a missing match. */
  lemma FoundEmptyIff(pr: Probe, s: string)
    ensures Found(pr, s) == "" <==> forall q :: 0 <= q <= |s| ==> MatchAt(pr, s, q).None?
  {
    match Search(pr, s, 0)
    case None =>
    case Some(m) =>
      assert MatchAt(pr, s, m.start).Some?;
  }

  /** `r` is the text `pr` matches at `p`, and `pr` matches at no earlier offset. */
  predicate MatchedFirstAt(pr: Probe, s: string, p: nat, r: string) {
    && p + |r| <= |s| && s[p..p + |r|] == r
    && MatchAt(pr, s, p) == Some(p + |r|)
    && forall q :: 0 <= q < p ==> MatchAt(pr, s, q).None?
  }

  /** What a probe finds is the text it matches at the first offset where it
      matches. */
  lemma FoundIsLeftmost(pr: Probe, s: string)
    ensures Found(pr, s) != "" ==> exists p: nat :: MatchedFirstAt(pr, s, p, Found(pr, s))
  {
    match Search(pr, s, 0)
    case None =>
    case Some(m) =>
      SearchMatchedFirst(pr, s, m);
  }

  lemma SearchMatchedFirst(pr: Probe, s: string, m: Span)
    requires Search(pr, s, 0) == Some(m)
    ensures Found(pr, s) == s[m.start..m.end]
    ensures MatchedFirstAt(pr, s, m.start, Found(pr, s))
  {
    var r := s[m.start..m.end];
    assert m.start + |r| == m.end && s[m.start..m.start + |r|] == r;
    FirstOfSearch(pr, s, m);
  }

  /** The search's own promise, restated for the offset it returns. */
  lemma FirstOfSearch(pr: Probe, s: string, m: Span)
    requires Search(pr, s, 0) == Some(m)
    ensures MatchAt(pr, s, m.start) == Some(m.end)
    ensures forall q :: 0 <= q < m.start ==> MatchAt(pr, s, q).None?
  {
  }

  /** Every alternative of every word-bounded probe is non-empty. */
  lemma WordsNonEmpty(pr: Probe)
    requires pr.IsWordProbe()
    ensures forall j :: 0 <= j < |pr.Words()| ==> |pr.Words()[j]| > 0
  {
  }

  /** The token matched at `p` is spelled by the first alternative that fits. */
  lemma TokenSpells(s: string, p: nat, alts: seq<seq<Atom>>)
    requires p <= |s| && TokenAt(s, p, alts).Some?
    ensures Spells(s[p..TokenAt(s, p, alts).value], alts[FirstFit(s, p, alts, 0).value])
  {
  }

  /** What a word-bounded probe finds is spelled by one of its alternatives, and it
      finds nothing exactly when no offset matches. */
  lemma FoundSpellsWord(pr: Probe, s: string)
    requires pr.IsWordProbe()
    ensures Found(pr, s) == "" <==> Search(pr, s, 0).None?
    ensures Found(pr, s) != "" ==>
              exists j :: 0 <= j < |pr.Words()| && Spells(Found(pr, s), pr.Words()[j])
  {
    var ws := pr.Words();
    match Search(pr, s, 0)
    case None =>
    case Some(m) =>
      assert TokenAt(s, m.start, ws) == Some(m.end) by {
        assert MatchAt(pr, s, m.start) == TokenAt(s, m.start, ws);
      }
      TokenSpells(s, m.start, ws);
  }

  /** What the season probe finds has the season shape, and it finds nothing
      exactly when no offset matches. */
  lemma FoundSeason(s: string)
    ensures Found(Season, s) == "" <==> Search(Season, s, 0).None?
    ensures Found(Season, s) != "" ==> SeasonText(Found(Season, s))
  {
    match Search(Season, s, 0)
    case None =>
    case Some(m) =>
      assert MatchAt(Season, s, m.start) == SeasonAt(s, m.start);
      SeasonMatchShape(s, m.start);
  }

  /** What the resolution probe finds has the resolution shape, and it finds
      nothing exactly when no offset matches. */
  lemma FoundResolution(s: string)
    ensures Found(Resolution, s) == "" <==> Search(Resolution, s, 0).None?
    ensures Found(Resolution, s) != "" ==> ResolutionText(Found(Resolution, s))
  {
    match Search(Resolution, s, 0)
    case None =>
    case Some(m) =>
      assert MatchAt(Resolution, s, m.start) == ResolutionAt(s, m.start);
      ResolutionMatchShape(s, m.start);
  }

  // ---------------------------------------------------------------------------
  // What the probes find, from the text's side
  // ---------------------------------------------------------------------------

  /** A word-bounded probe finds something exactly when, somewhere in the title,
      one of its alternatives starts at a word boundary and is followed by one. */
  lemma WordFoundIff(pr: Probe, s: string)
    requires pr.IsWordProbe()
    ensures Found(pr, s) != "" <==>
              exists p, j :: && 0 <= p <= |s| && 0 <= j < |pr.Words()|
                             && Boundary(s, p) && FitsAt(s, p, pr.Words()[j])
  {
    FoundEmptyIff(pr, s);
    var ws := pr.Words();
    if Found(pr, s) != "" {
      var q :| 0 <= q <= |s| && MatchAt(pr, s, q).Some?;
      assert TokenAt(s, q, ws).Some? by {
        assert MatchAt(pr, s, q) == TokenAt(s, q, ws);
      }
      var j := FirstFit(s, q, ws, 0).value;
      assert Boundary(s, q) && FitsAt(s, q, ws[j]);
    }
    if exists p, j :: 0 <= p <= |s| && 0 <= j < |ws| && Boundary(s, p) && FitsAt(s, p, ws[j]) {
      var p, j :| 0 <= p <= |s| && 0 <= j < |ws| && Boundary(s, p) && FitsAt(s, p, ws[j]);
      assert TokenAt(s, p, ws).Some?;
      assert MatchAt(pr, s, p).Some? by {
        assert MatchAt(pr, s, p) == TokenAt(s, p, ws);
      }
    }
  }

  /** A slice of a slice is a slice. */
  lemma SubSlice(s: string, p: nat, e: nat, i: nat, j: nat)
    requires p <= e <= |s| && i <= j <= e - p
    ensures s[p..e][i..j] == s[p + i..p + j]
  {
    assert forall k :: 0 <= k < j - i ==> s[p..e][i..j][k] == s[p + i..p + j][k];
  }

  /** A greedy `\s*` before a non-space stops exactly there. */
  lemma SpaceRunExact(s: string, q: nat, n: nat)
    requires q + n < |s| && AllSpace(s[q..q + n]) && !IsSpace(s[q + n])
    ensures SpaceRun(s, q) == n
  {
  }

  /** A season branch matches at `p` when its head is followed by whitespace up
      to `b` and a digit or `Arc` starts at `b`. */
  lemma SeasonBranchMatchesAt(s: string, p: nat, head: string, b: nat)
    requires p + |head| <= b < |s|
    requires Spells(s[p..p + |head|], Lit(head)) && AllSpace(s[p + |head|..b])
    requires IsDigit(s[b]) || (b + 3 <= |s| && Spells(s[b..b + 3], Lit("Arc")))
    ensures SeasonBranchAt(s, p, head).Some?
  {
    assert !IsSpace(s[b]) by {
      if !IsDigit(s[b]) {
        assert Accepts(Lit("Arc")[0], s[b..b + 3][0]);
      }
    }
    SpaceRunExact(s, p + |head|, b - p - |head|);
  }

  /** Season-branch text at an offset is matched by that branch there. */
  lemma SeasonBranchMatches(s: string, p: nat, e: nat, head: string)
    requires p <= e <= |s| && SeasonBranchText(s[p..e], head)
    ensures SeasonBranchAt(s, p, head).Some?
  {
    var t := s[p..e];
    var q :| |head| <= q < |t| && AllSpace(t[|head|..q]) && (AllDigits(t[q..]) || Spells(t[q..], Lit("Arc")));
    SeasonPartsAt(s, p, e, head, q);
    SeasonBranchMatchesAt(s, p, head, p + q);
  }

  /** The parts of season-branch text, read at their offsets in the title. */
  lemma SeasonPartsAt(s: string, p: nat, e: nat, head: string, q: nat)
    requires p <= e <= |s| && |head| <= q < e - p
    requires Spells(s[p..e][..|head|], Lit(head)) && AllSpace(s[p..e][|head|..q])
    requires AllDigits(s[p..e][q..]) || Spells(s[p..e][q..], Lit("Arc"))
    ensures p + |head| <= p + q < |s|
    ensures Spells(s[p..p + |head|], Lit(head)) && AllSpace(s[p + |head|..p + q])
    ensures IsDigit(s[p + q]) || (p + q + 3 <= |s| && Spells(s[p + q..p + q + 3], Lit("Arc")))
  {
    SubSlice(s, p, e, 0, |head|);
    SubSlice(s, p, e, |head|, q);
    SubSlice(s, p, e, q, e - p);
    assert s[p + q] == s[p..e][q..][0];
  }

  /** The season probe finds something exactly when the title holds season
      text: `Season`, `S` or `Arc`, whitespace, then digits or `Arc`. */
  lemma SeasonFoundIff(s: string)
    ensures Found(Season, s) != "" <==> exists p, e :: 0 <= p <= e <= |s| && SeasonText(s[p..e])
  {
    FoundEmptyIff(Season, s);
    if Found(Season, s) != "" {
      var q :| 0 <= q <= |s| && MatchAt(Season, s, q).Some?;
      assert MatchAt(Season, s, q) == SeasonAt(s, q);
      SeasonMatchShape(s, q);
    }
    if exists p, e :: 0 <= p <= e <= |s| && SeasonText(s[p..e]) {
      var p, e :| 0 <= p <= e <= |s| && SeasonText(s[p..e]);
      if SeasonBranchText(s[p..e], "Season") {
        SeasonBranchMatches(s, p, e, "Season");
      } else if SeasonBranchText(s[p..e], "S") {
        SeasonBranchMatches(s, p, e, "S");
      } else {
        SeasonBranchMatches(s, p, e, "Arc");
      }
      assert MatchAt(Season, s, p).Some?;
    }
  }

  /** Resolution text between two word boundaries is matched where it starts. */
  lemma ResolutionTextMatches(s: string, p: nat, e: nat)
    requires p <= e <= |s| && Boundary(s, p) && Boundary(s, e) && ResolutionText(s[p..e])
    ensures ResolutionAt(s, p).Some?
  {
    var t := s[p..e];
    if 4 <= |t| <= 5 && '1' <= t[0] <= '9' && AllDigits(t[1..|t| - 1]) && t[|t| - 1] == 'p' {
      ProgressiveFromText(s, p, e);
    } else {
      var k :| 3 <= k <= 4 && 3 <= |t| - k - 1 <= 4 && AllDigits(t[..k]) && t[k] == 'x'
               && AllDigits(t[k + 1..]);
      DimensionsFromText(s, p, e, k);
    }
    ResolutionLookbehindIsRedundant(s, p);
  }

  /** `WxH` text followed by a word boundary is matched by the dimensions branch. */
  lemma DimensionsFromText(s: string, p: nat, e: nat, k: nat)
    requires p <= e <= |s| && Boundary(s, e)
    requires 3 <= k <= 4 && 3 <= e - p - k - 1 <= 4
    requires AllDigits(s[p..e][..k]) && s[p..e][k] == 'x' && AllDigits(s[p..e][k + 1..])
    ensures DimensionsAt(s, p).Some?
  {
    SubSlice(s, p, e, 0, k);
    SubSlice(s, p, e, k + 1, e - p);
    assert DimensionsFit(s, p, k, e - p - k - 1);
  }

  /** `[1-9]\d{2,3}p` text followed by a word boundary is matched by the
      progressive branch. */
  lemma ProgressiveFromText(s: string, p: nat, e: nat)
    requires p <= e <= |s| && Boundary(s, e) && 4 <= e - p <= 5
    requires '1' <= s[p..e][0] <= '9' && AllDigits(s[p..e][1..e - p - 1]) && s[p..e][e - p - 1] == 'p'
    ensures ProgressiveAt(s, p).Some?
  {
    SubSlice(s, p, e, 1, e - p - 1);
    assert ProgressiveFit(s, p, e - p - 2);
  }

  /** The resolution probe finds something exactly when the title holds
      resolution text between two word boundaries. */
  lemma ResolutionFoundIff(s: string)
    ensures Found(Resolution, s) != "" <==>
              exists p, e :: && 0 <= p <= e <= |s| && Boundary(s, p) && Boundary(s, e)
                             && ResolutionText(s[p..e])
  {
    FoundEmptyIff(Resolution, s);
    if Found(Resolution, s) != "" {
      var q :| 0 <= q <= |s| && MatchAt(Resolution, s, q).Some?;
      assert MatchAt(Resolution, s, q) == ResolutionAt(s, q);
      ResolutionMatchShape(s, q);
    }
    if exists p, e :: && 0 <= p <= e <= |s| && Boundary(s, p) && Boundary(s, e)
                      && ResolutionText(s[p..e]) {
      var p, e :| && 0 <= p <= e <= |s| && Boundary(s, p) && Boundary(s, e)
                  && ResolutionText(s[p..e]);
      ResolutionTextMatches(s, p, e);
      assert MatchAt(Resolution, s, p).Some?;
    }
  }
}
