/**
 * The release-title normaliser of the Nyaa provider (`formatTitle`): nine
 * independent probes extract fields from a free-text fansub release title, and
 * a fixed template reassembles them into one canonical string ending in
 * `SZNJD-<release group>`.
 */
module Title {
  import opened Wrappers
  import opened Text
  import opened Patterns

  /** The fields `formatTitle` extracts, each the text its pattern matched or the
      empty string when the pattern did not match; `source` already has a bare
      `BD` replaced by `BluRay`. */
  datatype TitleFields = TitleFields(
    releaseGroup: string,
    showName: string,
    season: string,
    resolution: string,
    source: string,
    audioType: string,
    videoType: string,
    hi10: string,
    dualAudio: string)

  /** The tag every normalised title carries before its release group. */
  const GroupTag: string := "SZNJD-"

  // ---------------------------------------------------------------------------
  // Extraction
  // ---------------------------------------------------------------------------

  /** The title opens with `[` and a `]` follows somewhere. */
  predicate OpensWithBracket(title: string) {
    |title| > 0 && title[0] == '[' && ']' in title[1..]
  }

  /** `/^\[([^\]]+)]/` captured group, or `''`: the text between a leading `[`
      and the first `]`. An empty `[]` makes the pattern fail, which yields the
      same empty string. */
  function ReleaseGroup(title: string): (g: string)
    ensures OpensWithBracket(title) ==>
              |g| + 2 <= |title| && title[..|g| + 2] == "[" + g + "]" && ']' !in g
    ensures !OpensWithBracket(title) ==> g == ""
  {
    if |title| > 0 && title[0] == '[' then
      match IndexOf(title[1..], ']')
      case Some(k) =>
        assert title[..k + 2] == "[" + title[1..1 + k] + "]";
        title[1..1 + k]
      case None => ""
    else ""
  }

  /** The group written between the opening brackets is what is read back, for
      any text after the closing bracket; an empty `[]` gives the empty group. */
  lemma ReleaseGroupOfBracketed(g: string, rest: string)
    requires ']' !in g
    ensures ReleaseGroup("[" + g + "]" + rest) == g
  {
    var title := "[" + g + "]" + rest;
    assert title[1..] == g + "]" + rest;
    assert title[1..][|g|] == ']';
    assert OpensWithBracket(title);
    assert title[1..|g| + 1] == g;
  }

  /** A source token equal to `BD` ignoring case becomes `BluRay`; any other
      match, and the empty no-match, is kept as it was matched. */
  function NormaliseSource(m: string): (r: string)
    ensures Upper(m) == "BD" ==> r == "BluRay"
    ensures Upper(m) != "BD" ==> r == m
    ensures r == "" <==> m == ""
  {
    if Upper(m) == "BD" then "BluRay" else m
  }

  /** The fields of `title`. The show-name pattern relies on lookbehind and
      backtracking through bracket classes and is not modelled: `showNameOf`
      stands for it. */
  function Extract(title: string, showNameOf: string -> string): (f: TitleFields)
    ensures f.season == "" || SeasonText(f.season)
    ensures f.resolution == "" || ResolutionText(f.resolution)
    ensures f.source == "" || f.source == "BluRay"
            || exists j :: 0 <= j < |SourceWords| && Spells(f.source, SourceWords[j])
    ensures f.audioType == "" || exists j :: 0 <= j < |AudioWords| && Spells(f.audioType, AudioWords[j])
    ensures f.videoType == "" || exists j :: 0 <= j < |VideoWords| && Spells(f.videoType, VideoWords[j])
    ensures f.hi10 == "" || exists j :: 0 <= j < |Hi10Words| && Spells(f.hi10, Hi10Words[j])
    ensures f.dualAudio == "" || exists j :: 0 <= j < |DualAudioWords| && Spells(f.dualAudio, DualAudioWords[j])
  {
    FoundSeason(title);
    FoundResolution(title);
    FoundSpellsWord(Source, title);
    FoundSpellsWord(Audio, title);
    FoundSpellsWord(Video, title);
    FoundSpellsWord(Hi10, title);
    FoundSpellsWord(DualAudio, title);
    TitleFields(
      ReleaseGroup(title),
      showNameOf(title),
      Found(Season, title),
      Found(Resolution, title),
      NormaliseSource(Found(Source, title)),
      Found(Audio, title),
      Found(Video, title),
      Found(Hi10, title),
      Found(DualAudio, title))
  }

  // ---------------------------------------------------------------------------
  // Assembly
  // ---------------------------------------------------------------------------

  /** `HEVC` becomes `x265` and `AVC` becomes `x264`, ignoring case; every other
      token stays as matched. */
  function RemapVideo(v: string): (r: string)
    ensures Upper(r) != "HEVC" && Upper(r) != "AVC"
    ensures r == v || Upper(v) == "HEVC" || Upper(v) == "AVC"
    ensures Upper(v) == "HEVC" ==> r == "x265"
    ensures Upper(v) == "AVC" ==> r == "x264"
  {
    UpperOfVocabulary();
    if Upper(v) == "HEVC" then "x265"
    else if Upper(v) == "AVC" then "x264"
    else v
  }

  predicate Hi10Gate(hi10: string) {
    Upper(hi10) == "HI10" || Upper(hi10) == "HI10P"
  }

  predicate DualGate(dualAudio: string) {
    Upper(dualAudio) == "DUAL-AUDIO" || Upper(dualAudio) == "EN+JA"
  }

  /** The bit-depth suffix, given the remapped video codec. */
  function Hi10Suffix(hi10: string, video: string): (r: string)
    ensures r == "" <==> !Hi10Gate(hi10)
    ensures r != "" ==> EndsWith(r, " 10bit") && (r == " 10bit" <==> Upper(video) == "X264")
    ensures Hi10Gate(hi10) && Upper(video) != "X264" ==> r == " x264 10bit"
  {
    if !Hi10Gate(hi10) then ""
    else if Upper(video) == "X264" then " 10bit"
    else " x264 10bit"
  }

  function DualSuffix(dualAudio: string): (r: string)
    ensures r == "" || r == " Dual-Audio"
    ensures r != "" <==> DualGate(dualAudio)
  {
    if DualGate(dualAudio) then " Dual-Audio" else ""
  }

  /** Everything the template produces before the group tag: the six fields with
      single spaces, a double space before the lower-cased codec, the optional
      suffixes and the space that precedes the tag. */
  function Descriptor(f: TitleFields): (d: string)
    ensures |d| > |f.showName| && d[..|f.showName|] == f.showName && d[|d| - 1] == ' '
  {
    var video := RemapVideo(f.videoType);
    f.showName + " " + f.season + " " + f.resolution + " " + f.source + " "
    + Upper(f.audioType) + "  " + Lower(video)
    + Hi10Suffix(f.hi10, video) + DualSuffix(f.dualAudio) + " "
  }

  /** The assembly step: the template followed by the group tag and the release
      group, trimmed. The result is never empty, has no surrounding whitespace,
      and ends with the tag and the release group (less any trailing whitespace
      of the group). */
  function Assemble(f: TitleFields): (r: string)
    ensures |r| >= |GroupTag| && !IsSpace(r[0]) && !IsSpace(r[|r| - 1])
    ensures EndsWith(r, GroupTag + TrimEnd(f.releaseGroup))
  {
    TrimAroundSolidShape(Descriptor(f), GroupTag, f.releaseGroup);
    Trim(Descriptor(f) + GroupTag + f.releaseGroup)
  }

  /** `formatTitle`. */
  function FormatTitle(title: string, showNameOf: string -> string): (r: string)
    ensures |r| > 0 && !IsSpace(r[0]) && !IsSpace(r[|r| - 1])
    ensures EndsWith(r, GroupTag + TrimEnd(ReleaseGroup(title)))
  {
    Assemble(Extract(title, showNameOf))
  }

  // ---------------------------------------------------------------------------
  // The shape of the output
  // ---------------------------------------------------------------------------

  /** Trimming the assembled text only strips whitespace in front of the first
      non-empty field and after the release group: the tag and everything
      between survive unchanged. */
  lemma AssembleLayout(f: TitleFields)
    ensures Trim(Descriptor(f) + GroupTag + f.releaseGroup)
              == TrimStart(Descriptor(f)) + GroupTag + TrimEnd(f.releaseGroup)
  {
    TrimAroundSolid(Descriptor(f), GroupTag, f.releaseGroup);
  }

  /** With a show name that starts with a non-space and a release group that does
      not end in one, nothing is trimmed: the spacing of the template, double
      space before the codec included, is exactly what is returned. */
  lemma AssembleExactSpacing(f: TitleFields)
    requires f.showName != [] && !IsSpace(f.showName[0])
    requires f.releaseGroup == [] || !IsSpace(f.releaseGroup[|f.releaseGroup| - 1])
    ensures Assemble(f) == Descriptor(f) + GroupTag + f.releaseGroup
  {
    AssembleLayout(f);
    var d := Descriptor(f);
    assert d[0] == f.showName[0];
    assert LeadingSpaces(d) == 0;
    assert TrailingSpaces(f.releaseGroup) == 0;
  }

  /** When nothing is extracted the output is the bare tag. */
  lemma AssembleAllEmpty()
    ensures Assemble(TitleFields("", "", "", "", "", "", "", "", "")) == "SZNJD-"
  {
    var f := TitleFields("", "", "", "", "", "", "", "", "");
    AssembleLayout(f);
    assert Upper("") == "" && Lower("") == "";
    assert !Hi10Gate("") && !DualGate("");
    assert Descriptor(f) == "       ";
    assert LeadingSpaces(Descriptor(f)) == |Descriptor(f)|;
  }

  /** The bit-depth suffix always puts `x264 10bit` right after the codec: when
      the codec already reads `x264` only ` 10bit` is added, otherwise a second
      codec token is; without the Hi10 flag nothing is added. */
  lemma TenBitFollowsX264(f: TitleFields)
    ensures var video := RemapVideo(f.videoType);
            Hi10Gate(f.hi10) ==> EndsWith(Lower(video) + Hi10Suffix(f.hi10, video), "x264 10bit")
    ensures !Hi10Gate(f.hi10) ==> Hi10Suffix(f.hi10, RemapVideo(f.videoType)) == ""
  {
    var video := RemapVideo(f.videoType);
    if Hi10Gate(f.hi10) {
      var t := Lower(video) + Hi10Suffix(f.hi10, video);
      if Upper(video) == "X264" {
        assert t == "x264 10bit" by {
          LowerOfUpper(video);
          assert Lower("X264") == "x264";
        }
      } else {
        assert t[|t| - 10..] == "x264 10bit" by {
          assert t == Lower(video) + " x264 10bit";
        }
      }
    }
  }

  // ---------------------------------------------------------------------------
  // What the probes can deliver to the template
  // ---------------------------------------------------------------------------

  lemma UpperOfVocabulary()
    ensures Upper("FLAC") == "FLAC" && Upper("OPUS") == "OPUS" && Upper("AAC") == "AAC"
    ensures Upper("AC3") == "AC3" && Upper("EAC3") == "EAC3"
    ensures Upper("x264") == "X264" && Upper("x265") == "X265"
    ensures Upper("HEVC") == "HEVC" && Upper("AVC") == "AVC"
    ensures Upper("Hi10") == "HI10" && Upper("Hi10P") == "HI10P"
    ensures Upper("Dual-Audio") == "DUAL-AUDIO" && Upper("EN+JA") == "EN+JA"
    ensures Upper("BD") == "BD"
  {
  }

  /** The audio token reaches the template upper-cased, as one of the five codec
      names, or empty. */
  lemma AudioIsCanonical(title: string)
    ensures var a := Upper(Found(Audio, title));
            a == "" || a == "FLAC" || a == "OPUS" || a == "AAC" || a == "AC3" || a == "EAC3"
  {
    var m := Found(Audio, title);
    FoundSpellsWord(Audio, title);
    UpperOfVocabulary();
    if m != "" {
      var j :| 0 <= j < |AudioWords| && Spells(m, AudioWords[j]);
      var w := ["FLAC", "OPUS", "AAC", "AC3", "EAC3"][j];
      assert AudioWords[j] == Lit(w);
      SpellsLit(m, w);
    }
  }

  /** The codec reaches the template as exactly `x264`, `x265` or nothing: `HEVC`
      and `x265` in any case give `x265`, `AVC` and `x264` give `x264`. */
  lemma VideoIsCanonical(title: string)
    ensures var raw := Found(Video, title);
            var v := Lower(RemapVideo(raw));
            && (v == "" <==> raw == "")
            && (v == "x265" <==> Upper(raw) == "HEVC" || Upper(raw) == "X265")
            && (v == "x264" <==> Upper(raw) == "AVC" || Upper(raw) == "X264")
  {
    var raw := Found(Video, title);
    FoundSpellsWord(Video, title);
    if raw != "" {
      var j :| 0 <= j < |VideoWords| && Spells(raw, VideoWords[j]);
      VideoWordIsCanonical(raw, j);
    }
  }

  /** One video alternative at a time: the token it spells lower-cases, after the
      remap, to the codec name it stands for. */
  lemma VideoWordIsCanonical(raw: string, j: nat)
    requires j < |VideoWords| && Spells(raw, VideoWords[j])
    ensures var v := Lower(RemapVideo(raw));
            && v != ""
            && (v == "x265" <==> Upper(raw) == "HEVC" || Upper(raw) == "X265")
            && (v == "x264" <==> Upper(raw) == "AVC" || Upper(raw) == "X264")
  {
    UpperOfVocabulary();
    assert Lower("x264") == "x264" && Lower("x265") == "x265";
    assert Lower("X264") == "x264" && Lower("X265") == "x265";
    var w := ["x264", "x265", "HEVC", "AVC"][j];
    assert VideoWords[j] == Lit(w);
    SpellsLit(raw, w);
    LowerOfUpper(raw);
  }

  /** The Hi10 gate accepts whatever the Hi10 probe finds: the suffix depends only
      on whether a `Hi10`/`Hi10P` token is present. */
  lemma Hi10GateIsPresence(title: string)
    ensures Hi10Gate(Found(Hi10, title)) <==> Found(Hi10, title) != ""
  {
    var m := Found(Hi10, title);
    FoundSpellsWord(Hi10, title);
    UpperOfVocabulary();
    if m != "" {
      var j :| 0 <= j < |Hi10Words| && Spells(m, Hi10Words[j]);
      var w := ["Hi10", "Hi10P"][j];
      assert Hi10Words[j] == Lit(w);
      SpellsLit(m, w);
    } else {
      assert Upper(m) == "";
    }
  }

  /** The dual-audio gate is narrower than its probe: of the spellings the probe
      finds, only `Dual-Audio` and `EN+JA` (in any case) pass; `Dual Audio` with
      any whitespace and `DualAudio` add nothing. */
  lemma DualGateIsHyphenOrEnJa(title: string)
    ensures var m := Found(DualAudio, title);
            DualGate(m) <==> Spells(m, Lit("Dual-Audio")) || Spells(m, Lit("EN+JA"))
    ensures var m := Found(DualAudio, title);
            m != "" && !DualGate(m) ==>
              Spells(m, Lit("DualAudio")) || Spells(m, Lit("Dual") + [Space] + Lit("Audio"))
  {
    var m := Found(DualAudio, title);
    FoundSpellsWord(DualAudio, title);
    UpperOfVocabulary();
    SpellsLit(m, "Dual-Audio");
    SpellsLit(m, "EN+JA");
    if m != "" {
      var j :| 0 <= j < |DualAudioWords| && Spells(m, DualAudioWords[j]);
      if j == 0 {
        DualSpellings(m);
      }
    }
  }

  /** A match of `Dual[\s-]Audio` is `Dual-Audio` when its middle character is a
      hyphen and `Dual` whitespace `Audio` otherwise. */
  lemma DualSpellings(m: string)
    requires Spells(m, DualAudioWords[0])
    ensures m[4] == '-' ==> Spells(m, Lit("Dual-Audio"))
    ensures m[4] != '-' ==> Spells(m, Lit("Dual") + [Space] + Lit("Audio"))
  {
    var spaced := Lit("Dual") + [Space] + Lit("Audio");
    var hyphen := Lit("Dual-Audio");
    assert Accepts(SpaceOrDash, m[4]);
    forall i | 0 <= i < 10 && i != 4
      ensures Accepts(spaced[i], m[i]) && Accepts(hyphen[i], m[i])
    {
      assert spaced[i] == DualAudioWords[0][i];
      assert hyphen[i] == DualAudioWords[0][i];
    }
  }

  /** The source field is `BluRay` exactly when the first source token is `BD`
      ignoring case or literally `BluRay`; otherwise it is that token verbatim,
      which appears in the title. */
  lemma SourceField(title: string, showNameOf: string -> string)
    ensures var m := Found(Source, title);
            var r := Extract(title, showNameOf).source;
            && (r == "BluRay" <==> Upper(m) == "BD" || m == "BluRay")
            && (r != "BluRay" ==> r == m)
            && (r == "" <==> m == "")
            && (m != "" ==> Contains(title, m))
  {
    var m := Found(Source, title);
    UpperOfVocabulary();
    if Upper(m) != "BD" && m != "BluRay" {
      assert NormaliseSource(m) == m;
    }
    match Search(Source, title, 0)
    case None =>
    case Some(sp) => ContainsAt(title, m, sp.start);
  }

  // ---------------------------------------------------------------------------
  // Examples
  // ---------------------------------------------------------------------------

  /** The fields of a `[Erai-raws] Some Show S2 (1080p) [BD FLAC x265 Hi10 Dual-Audio]`
      release. The show name is `Some Show S2 ` with its trailing space: the
      greedy class first runs up to `(`, then gives back the space before it, and
      the lookbehind meant to stop at `S2 (` sees that space instead of `S2`. */
  const ExampleFields: TitleFields :=
    TitleFields("Erai-raws", "Some Show S2 ", "S2", "1080p", "BluRay", "FLAC", "x265", "Hi10", "Dual-Audio")

  /** The template applied to the example's fields: the season appears twice. */
  lemma ExampleDescriptor(f: TitleFields)
    requires f == ExampleFields
    ensures Descriptor(f) == "Some Show S2  S2 1080p BluRay FLAC  x265 x264 10bit Dual-Audio "
  {
    var video := RemapVideo(f.videoType);
    assert video == "x265" by {
      UpperOfVocabulary();
    }
    assert Upper(f.audioType) == "FLAC" && Lower(video) == "x265" by {
      UpperOfVocabulary();
    }
    assert Hi10Suffix(f.hi10, video) == " x264 10bit" by {
      UpperOfVocabulary();
    }
    assert DualSuffix(f.dualAudio) == " Dual-Audio" by {
      UpperOfVocabulary();
    }
    ExampleChunks();
  }

  /** The example's pieces, concatenated. */
  lemma ExampleChunks()
    ensures "Some Show S2 " + " " + "S2" + " " + "1080p" + " " + "BluRay" + " " + "FLAC" + "  " + "x265"
            + " x264 10bit" + " Dual-Audio" + " "
            == "Some Show S2  S2 1080p BluRay FLAC  x265 x264 10bit Dual-Audio "
  {
    assert "Some Show S2 " + " " + "S2" + " " + "1080p" + " " == "Some Show S2  S2 1080p ";
    assert "Some Show S2  S2 1080p " + "BluRay" + " " + "FLAC" + "  " == "Some Show S2  S2 1080p BluRay FLAC  ";
    assert "Some Show S2  S2 1080p BluRay FLAC  " + "x265" + " x264 10bit"
           == "Some Show S2  S2 1080p BluRay FLAC  x265 x264 10bit";
    assert "Some Show S2  S2 1080p BluRay FLAC  x265 x264 10bit" + " Dual-Audio" + " "
           == "Some Show S2  S2 1080p BluRay FLAC  x265 x264 10bit Dual-Audio ";
  }

  /** The example release normalises with the season twice, and with the double
      space before the codec; as `x265` is not `x264`, the Hi10 flag adds a second
      codec token. */
  lemma ExampleAssembly(f: TitleFields)
    requires f == ExampleFields
    ensures Assemble(f) == "Some Show S2  S2 1080p BluRay FLAC  x265 x264 10bit Dual-Audio SZNJD-Erai-raws"
  {
    ExampleDescriptor(f);
    AssembleExactSpacing(f);
    ExampleTail();
  }

  /** The example's descriptor followed by its tag. */
  lemma ExampleTail()
    ensures "Some Show S2  S2 1080p BluRay FLAC  x265 x264 10bit Dual-Audio " + GroupTag + "Erai-raws"
            == "Some Show S2  S2 1080p BluRay FLAC  x265 x264 10bit Dual-Audio SZNJD-Erai-raws"
  {
    assert GroupTag + "Erai-raws" == "SZNJD-Erai-raws";
  }

  /** A long source spelling is kept as written, case included. */
  lemma SourceKeptVerbatim()
    ensures NormaliseSource(Found(Source, "bd-RIP")) == "bd-RIP"
  {
    var s := "bd-RIP";
    assert Spells(s[0..6], SourceWords[0]);
    assert FitsAt(s, 0, SourceWords[0]);
    assert MatchAt(Source, s, 0) == Some(6);
    LeftmostMatch(Source, s, 0, 0, 6);
    assert Upper(s) != "BD" by { assert |Upper(s)| == 6; }
  }

  /** A bare `BD`, in any case, becomes `BluRay`. */
  lemma ShortSourceBecomesBluRay()
    ensures NormaliseSource(Found(Source, "bd")) == "BluRay"
  {
    var s := "bd";
    assert !FitsAt(s, 0, SourceWords[0]);
    assert !FitsAt(s, 0, SourceWords[1]);
    assert Spells(s[0..2], SourceWords[2]);
    assert FitsAt(s, 0, SourceWords[2]);
    assert MatchAt(Source, s, 0) == Some(2);
    LeftmostMatch(Source, s, 0, 0, 2);
    assert Upper(s) == "BD";
  }

  /** When `BD-rip` runs on into a word character the alternation falls back to
      the bare `BD`, which then becomes `BluRay`. */
  lemma BacktrackingSourceBecomesBluRay()
    ensures NormaliseSource(Found(Source, "BD-ripX")) == "BluRay"
  {
    var s := "BD-ripX";
    assert !FitsAt(s, 0, SourceWords[0]);
    assert !FitsAt(s, 0, SourceWords[1]) by { assert s[2] == '-'; }
    assert Spells(s[0..2], SourceWords[2]);
    assert FitsAt(s, 0, SourceWords[2]);
    assert MatchAt(Source, s, 0) == Some(2);
    LeftmostMatch(Source, s, 0, 0, 2);
    assert Upper(s[0..2]) == "BD";
  }

  /** `Dual Audio` is found but is not one of the two spellings the gate
      accepts, so the title gets no `Dual-Audio`. */
  lemma SpacedDualAudioAddsNothing()
    ensures Found(DualAudio, "Dual Audio") == "Dual Audio"
    ensures DualSuffix(Found(DualAudio, "Dual Audio")) == ""
  {
    var s := "Dual Audio";
    assert Spells(s[0..10], DualAudioWords[0]);
    assert FitsAt(s, 0, DualAudioWords[0]);
    assert MatchAt(DualAudio, s, 0) == Some(10);
    LeftmostMatch(DualAudio, s, 0, 0, 10);
    assert Upper(s)[4] == ' ';
  }

  /** `Hi10` is tried first and fails at the word boundary, so `Hi10P` matches. */
  lemma Hi10PTriesShortAlternativeFirst()
    ensures Found(Hi10, "Hi10P") == "Hi10P"
  {
    var s := "Hi10P";
    assert !Boundary(s, 4) by { assert IsWordChar(s[3]) && IsWordChar(s[4]); }
    assert !FitsAt(s, 0, Hi10Words[0]);
    assert Spells(s[0..5], Hi10Words[1]);
    assert FitsAt(s, 0, Hi10Words[1]);
    assert MatchAt(Hi10, s, 0) == Some(5);
    LeftmostMatch(Hi10, s, 0, 0, 5);
  }
}
