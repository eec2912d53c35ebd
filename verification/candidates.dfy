/**
 * The release pipeline of the Nyaa provider (`get`): choose a link list from
 * the recommendation entry, keep the links that point at a Nyaa view page, read
 * each one's numeric ID, and turn every ID with a manual override into a
 * release record.
 *
 * Collaborators become parameters: `nyaaUrl` is the index's base URL, the
 * override table is a map from view link to canonical title, and the metadata
 * fetch is reduced to the set of IDs whose fetch rejects.
 */
module Candidates {
  import opened Wrappers
  import opened Text
  import opened Patterns

  /** A release record: the canonical title and the view link. */
  datatype Release = Release(title: string, link: string)

  /** Why `get` rejects. */
  datatype GetError =
    | MissingViewId(link: string)   // a retained link has no `nyaa.si/view/<digits>`: `[1]` of null
    | FetchFailed(id: nat)          // fetching the metadata of a release without override rejected

  // ---------------------------------------------------------------------------
  // Candidate links
  // ---------------------------------------------------------------------------

  /** `best_links.length ? best_links.split(' ') : alt_links.split(' ')`: the
      space-separated pieces of the best links, or of the alternatives when the
      best links are the empty string. */
  function SelectLinks(bestLinks: string, altLinks: string): (links: seq<string>)
    ensures |links| >= 1 && forall i :: 0 <= i < |links| ==> ' ' !in links[i]
    ensures Join(links, ' ') == if |bestLinks| > 0 then bestLinks else altLinks
  {
    var chosen := if |bestLinks| > 0 then bestLinks else altLinks;
    JoinSplit(chosen, ' ');
    Split(chosen, ' ')
  }

  /** What a link must contain to be kept. */
  function ViewMarker(nyaaUrl: string): string {
    nyaaUrl + "/view/"
  }

  /** `links.filter(url => url.includes(`${nyaaUrl}/view/`))`: the links that
      contain the marker, each as often as it occurs. */
  function RetainViewLinks(links: seq<string>, nyaaUrl: string): (kept: seq<string>)
    ensures |kept| <= |links|
    ensures forall i :: 0 <= i < |kept| ==> Contains(kept[i], ViewMarker(nyaaUrl))
    ensures forall u :: multiset(kept)[u] ==
              if Contains(u, ViewMarker(nyaaUrl)) then multiset(links)[u] else 0
    decreases |links|
  {
    if |links| == 0 then []
    else
      assert links == [links[0]] + links[1..];
      var rest := RetainViewLinks(links[1..], nyaaUrl);
      if Contains(links[0], ViewMarker(nyaaUrl)) then [links[0]] + rest else rest
  }

  /** Filtering keeps the order of the links: filtering a concatenation is the
      concatenation of the filtered parts. */
  lemma {:induction false} RetainDistributes(a: seq<string>, b: seq<string>, nyaaUrl: string)
    ensures RetainViewLinks(a + b, nyaaUrl) == RetainViewLinks(a, nyaaUrl) + RetainViewLinks(b, nyaaUrl)
    decreases |a|
  {
    if |a| == 0 {
      assert a + b == b;
    } else {
      assert (a + b)[0] == a[0];
      assert (a + b)[1..] == a[1..] + b;
      RetainDistributes(a[1..], b, nyaaUrl);
    }
  }

  // ---------------------------------------------------------------------------
  // IDs
  // ---------------------------------------------------------------------------

  /** `+url.match(/nyaa.si\/view\/(\d+)/)[1]`: the digits after the first
      `nyaa?si/view/` that is followed by digits, read as a number; no such place
      makes the match `null`, and reading `[1]` of it rejects. */
  function ExtractId(url: string): (r: Result<nat, GetError>)
    ensures r.Failure? <==> forall p :: 0 <= p <= |url| ==> ViewIdAt(url, p).None?
    ensures r.Failure? ==> r.error == MissingViewId(url)
    ensures r.Success? ==>
              exists p, e ::
                && 0 <= p <= |url| && ViewIdAt(url, p) == Some(e)
                && (forall q :: 0 <= q < p ==> ViewIdAt(url, q).None?)
                && AllDigits(url[p + ViewPrefixLength..e])
                && r.value == DigitsValue(url[p + ViewPrefixLength..e])
  {
    assert forall p :: 0 <= p <= |url| ==> MatchAt(ViewId, url, p) == ViewIdAt(url, p);
    match Search(ViewId, url, 0)
    case None => Failure(MissingViewId(url))
    case Some(m) =>
      assert ViewIdAt(url, m.start) == Some(m.end);
      Success(DigitsValue(url[m.start + ViewPrefixLength..m.end]))
  }

  /** `nyaaLinks.map(...)`: one ID per link, in link order, duplicates included;
      the first link without an ID makes the whole mapping reject. */
  function ExtractIds(links: seq<string>): (r: Result<seq<nat>, GetError>)
    ensures r.Success? <==> forall i :: 0 <= i < |links| ==> ExtractId(links[i]).Success?
    ensures r.Success? ==>
              && |r.value| == |links|
              && forall i :: 0 <= i < |links| ==> ExtractId(links[i]) == Success(r.value[i])
    ensures r.Failure? ==>
              exists i ::
                && 0 <= i < |links| && ExtractId(links[i]) == Failure(r.error)
                && forall k :: 0 <= k < i ==> ExtractId(links[k]).Success?
    decreases |links|
  {
    if |links| == 0 then Success([])
    else
      var id :- ExtractId(links[0]);
      var rest :- ExtractIds(links[1..]);
      assert forall i :: 1 <= i < |links| ==> links[i] == links[1..][i - 1];
      Success([id] + rest)
  }

  /** The view link the pipeline rebuilds from an ID: `${nyaaUrl}/view/${id}`. */
  function CanonicalLink(nyaaUrl: string, id: nat): (link: string)
    ensures var n := |ViewMarker(nyaaUrl)|;
            && |link| > n && link[..n] == ViewMarker(nyaaUrl) && AllDigits(link[n..])
            && Contains(link, ViewMarker(nyaaUrl))
  {
    var link := ViewMarker(nyaaUrl) + NatToString(id);
    ContainsAt(link, ViewMarker(nyaaUrl), 0);
    link
  }

  /** Reading the ID back from a rebuilt link gives the ID, for a base URL of the
      form `<scheme>nyaa.si` whose scheme part has no `n` (such as `https://`). */
  lemma IdRoundTrip(scheme: string, id: nat)
    requires 'n' !in scheme
    ensures ExtractId(CanonicalLink(scheme + "nyaa.si", id)) == Success(id)
  {
    var digits := NatToString(id);
    var s := scheme + "nyaa.si/view/" + digits;
    assert CanonicalLink(scheme + "nyaa.si", id) == s;
    ViewLinkSearch(scheme, digits);
    assert s[|scheme| + ViewPrefixLength..|s|] == digits;
    DigitsValueOfNatToString(id);
  }

  /** In `<scheme>nyaa.si/view/<digits>` the view-id pattern first matches at the
      end of the scheme and runs to the end of the link. */
  lemma ViewLinkSearch(scheme: string, digits: string)
    requires 'n' !in scheme && |digits| > 0 && AllDigits(digits)
    ensures var s := scheme + "nyaa.si/view/" + digits;
            Search(ViewId, s, 0) == Some(Span(|scheme|, |s|))
  {
    var s := scheme + "nyaa.si/view/" + digits;
    var p := |scheme|;
    forall q | 0 <= q < p
      ensures MatchAt(ViewId, s, q).None?
    {
      assert s[q] == scheme[q];
      NoViewIdWithoutN(s, q);
    }
    ViewIdAtLinkStart(scheme, digits);
    LeftmostMatch(ViewId, s, 0, p, |s|);
  }

  /** The view-id pattern cannot match where the text does not start with `n`. */
  lemma NoViewIdWithoutN(s: string, q: nat)
    requires q < |s| && s[q] != 'n'
    ensures ViewIdAt(s, q).None?
  {
    if q + 4 <= |s| {
      assert s[q..q + 4][0] == s[q];
    }
  }

  /** The view-id pattern matches at the start of `nyaa.si/view/<digits>`. */
  lemma ViewIdAtLinkStart(scheme: string, digits: string)
    requires |digits| > 0 && AllDigits(digits)
    ensures var s := scheme + "nyaa.si/view/" + digits;
            ViewIdAt(s, |scheme|) == Some(|s|)
  {
    var s := scheme + "nyaa.si/view/" + digits;
    var p := |scheme|;
    assert s[p..p + 4] == "nyaa";
    assert s[p + 4] == '.';
    assert s[p + 5..p + ViewPrefixLength] == "si/view/";
    assert s[p + ViewPrefixLength..] == digits;
    DigitRunToEnd(s, p + ViewPrefixLength);
  }

  /** A run of digits that reaches the end of the string is consumed whole. */
  lemma {:induction false} DigitRunToEnd(s: string, q: nat)
    requires q <= |s| && AllDigits(s[q..])
    ensures DigitRun(s, q) == |s| - q
    decreases |s| - q
  {
    if q < |s| {
      assert s[q] == s[q..][0];
      assert s[q + 1..] == s[q..][1..];
      DigitRunToEnd(s, q + 1);
    }
  }

  // ---------------------------------------------------------------------------
  // Releases
  // ---------------------------------------------------------------------------

  /** A spreadsheet override counts only when present and non-empty (truthy). */
  predicate HasOverride(overrides: map<string, string>, link: string) {
    link in overrides && overrides[link] != ""
  }

  /** The release an ID with an override produces. */
  function OverrideRelease(nyaaUrl: string, overrides: map<string, string>, id: nat): Release
    requires HasOverride(overrides, CanonicalLink(nyaaUrl, id))
  {
    var link := CanonicalLink(nyaaUrl, id);
    Release(overrides[link], link)
  }

  /** Prefixes already pushed releases to the outcome of the remaining IDs. */
  function Prepend(pushed: seq<Release>, rest: Result<seq<Release>, GetError>): Result<seq<Release>, GetError> {
    match rest
    case Success(rs) => Success(pushed + rs)
    case Failure(e) => Failure(e)
  }

  /** The loop over the IDs: an ID with an override pushes its release; an ID
      without one is fetched and formatted, which pushes nothing but rejects the
      whole call when the fetch rejects. */
  function Collect(nyaaUrl: string, ids: seq<nat>, overrides: map<string, string>, failingFetches: set<nat>)
    : (r: Result<seq<Release>, GetError>)
    ensures r.Success? <==>
              forall id :: id in ids ==> HasOverride(overrides, CanonicalLink(nyaaUrl, id)) || id !in failingFetches
    ensures r.Failure? ==>
              exists id :: id in ids && r.error == FetchFailed(id) && id in failingFetches
                && !HasOverride(overrides, CanonicalLink(nyaaUrl, id))
    ensures r.Success? ==> |r.value| <= |ids|
    ensures r.Success? ==>
              forall rel :: rel in r.value ==>
                exists id :: id in ids && HasOverride(overrides, CanonicalLink(nyaaUrl, id))
                  && rel == OverrideRelease(nyaaUrl, overrides, id)
    ensures r.Success? ==>
              forall id :: id in ids && HasOverride(overrides, CanonicalLink(nyaaUrl, id)) ==>
                OverrideRelease(nyaaUrl, overrides, id) in r.value
    decreases |ids|
  {
    if |ids| == 0 then Success([])
    else
      var link := CanonicalLink(nyaaUrl, ids[0]);
      var rest := Collect(nyaaUrl, ids[1..], overrides, failingFetches);
      assert ids == [ids[0]] + ids[1..];
      if HasOverride(overrides, link) then
        Prepend([OverrideRelease(nyaaUrl, overrides, ids[0])], rest)
      else if ids[0] in failingFetches then Failure(FetchFailed(ids[0]))
      else rest
  }

  /** One turn of the loop: what the first remaining ID contributes. */
  lemma CollectStep(nyaaUrl: string, ids: seq<nat>, i: nat, overrides: map<string, string>, failingFetches: set<nat>)
    requires i < |ids|
    ensures var link := CanonicalLink(nyaaUrl, ids[i]);
            var rest := Collect(nyaaUrl, ids[i + 1..], overrides, failingFetches);
            Collect(nyaaUrl, ids[i..], overrides, failingFetches) ==
              if HasOverride(overrides, link) then Prepend([Release(overrides[link], link)], rest)
              else if ids[i] in failingFetches then Failure(FetchFailed(ids[i]))
              else rest
  {
    assert ids[i..][1..] == ids[i + 1..];
  }

  /** Prefixing twice is prefixing the concatenation. */
  lemma PrependTwice(a: seq<Release>, b: seq<Release>, r: Result<seq<Release>, GetError>)
    ensures Prepend(a, Prepend(b, r)) == Prepend(a + b, r)
  {
    if r.Success? {
      assert a + (b + r.value) == (a + b) + r.value;
    }
  }

  /** Releases come out in ID order: the IDs of a concatenation are processed
      as the first part followed by the second. */
  lemma {:induction false} CollectDistributes(nyaaUrl: string, a: seq<nat>, b: seq<nat>,
                                              overrides: map<string, string>, failingFetches: set<nat>)
    ensures Collect(nyaaUrl, a + b, overrides, failingFetches) ==
              match Collect(nyaaUrl, a, overrides, failingFetches)
              case Failure(e) => Failure(e)
              case Success(rs) => Prepend(rs, Collect(nyaaUrl, b, overrides, failingFetches))
    decreases |a|
  {
    if |a| == 0 {
      assert a + b == b;
      var rest := Collect(nyaaUrl, b, overrides, failingFetches);
      if rest.Success? {
        assert [] + rest.value == rest.value;
      }
    } else {
      assert (a + b)[0] == a[0];
      assert (a + b)[1..] == a[1..] + b;
      CollectDistributes(nyaaUrl, a[1..], b, overrides, failingFetches);
      var link := CanonicalLink(nyaaUrl, a[0]);
      if HasOverride(overrides, link) {
        var head := [OverrideRelease(nyaaUrl, overrides, a[0])];
        match Collect(nyaaUrl, a[1..], overrides, failingFetches)
        case Failure(_) =>
        case Success(xs) =>
          PrependTwice(head, xs, Collect(nyaaUrl, b, overrides, failingFetches));
      }
    }
  }

  /** The IDs that have an override, in order, each as often as it occurs. */
  function OverriddenIds(nyaaUrl: string, ids: seq<nat>, overrides: map<string, string>): (kept: seq<nat>)
    ensures forall i :: 0 <= i < |kept| ==> HasOverride(overrides, CanonicalLink(nyaaUrl, kept[i]))
    ensures forall id :: multiset(kept)[id] ==
              if HasOverride(overrides, CanonicalLink(nyaaUrl, id)) then multiset(ids)[id] else 0
    decreases |ids|
  {
    if |ids| == 0 then []
    else
      assert ids == [ids[0]] + ids[1..];
      var rest := OverriddenIds(nyaaUrl, ids[1..], overrides);
      if HasOverride(overrides, CanonicalLink(nyaaUrl, ids[0])) then [ids[0]] + rest else rest
  }

  /** The override release of each of `ids`, in order. */
  function OverrideReleases(nyaaUrl: string, overrides: map<string, string>, ids: seq<nat>): (rs: seq<Release>)
    requires forall i :: 0 <= i < |ids| ==> HasOverride(overrides, CanonicalLink(nyaaUrl, ids[i]))
    ensures |rs| == |ids|
    ensures forall i :: 0 <= i < |ids| ==> rs[i] == OverrideRelease(nyaaUrl, overrides, ids[i])
  {
    seq(|ids|, i requires 0 <= i < |ids| => OverrideRelease(nyaaUrl, overrides, ids[i]))
  }

  /** A successful loop returns exactly the override releases of the overridden
      IDs, in ID order: an ID without an override contributes nothing. */
  lemma {:induction false} CollectIsOverrideReleases(nyaaUrl: string, ids: seq<nat>,
                                                     overrides: map<string, string>, failingFetches: set<nat>)
    ensures var r := Collect(nyaaUrl, ids, overrides, failingFetches);
            r.Success? ==> r.value == OverrideReleases(nyaaUrl, overrides, OverriddenIds(nyaaUrl, ids, overrides))
    decreases |ids|
  {
    var r := Collect(nyaaUrl, ids, overrides, failingFetches);
    if |ids| > 0 && r.Success? {
      var rest := Collect(nyaaUrl, ids[1..], overrides, failingFetches);
      var tail := OverriddenIds(nyaaUrl, ids[1..], overrides);
      CollectIsOverrideReleases(nyaaUrl, ids[1..], overrides, failingFetches);
      if HasOverride(overrides, CanonicalLink(nyaaUrl, ids[0])) {
        assert r.value == [OverrideRelease(nyaaUrl, overrides, ids[0])] + rest.value;
        assert OverriddenIds(nyaaUrl, ids, overrides) == [ids[0]] + tail;
        OverrideReleasesCons(nyaaUrl, overrides, ids[0], tail);
      } else {
        assert r == rest;
        assert OverriddenIds(nyaaUrl, ids, overrides) == tail;
      }
    }
  }

  /** The override releases of a list with a first ID start with that ID's release. */
  lemma OverrideReleasesCons(nyaaUrl: string, overrides: map<string, string>, id: nat, ids: seq<nat>)
    requires HasOverride(overrides, CanonicalLink(nyaaUrl, id))
    requires forall i :: 0 <= i < |ids| ==> HasOverride(overrides, CanonicalLink(nyaaUrl, ids[i]))
    ensures OverrideReleases(nyaaUrl, overrides, [id] + ids)
            == [OverrideRelease(nyaaUrl, overrides, id)] + OverrideReleases(nyaaUrl, overrides, ids)
  {
    var all := [id] + ids;
    assert forall i :: 1 <= i < |all| ==> all[i] == ids[i - 1];
  }

  /** `get`: the releases of a recommendation entry. Every release it returns
      carries its link's override as title. */
  function GetReleases(nyaaUrl: string, bestLinks: string, altLinks: string,
                       overrides: map<string, string>, failingFetches: set<nat>)
    : (r: Result<seq<Release>, GetError>)
    ensures r.Success? ==>
              forall k :: 0 <= k < |r.value| ==>
                && (exists id :: r.value[k].link == CanonicalLink(nyaaUrl, id))
                && HasOverride(overrides, r.value[k].link) && r.value[k].title == overrides[r.value[k].link]
  {
    var kept := RetainViewLinks(SelectLinks(bestLinks, altLinks), nyaaUrl);
    if |kept| == 0 then Success([])
    else
      var ids :- ExtractIds(kept);
      CollectCarriesOverrides(nyaaUrl, ids, overrides, failingFetches);
      Collect(nyaaUrl, ids, overrides, failingFetches)
  }

  /** Every release the loop pushes is linked to a rebuilt view link and titled by
      the override under it. */
  lemma CollectCarriesOverrides(nyaaUrl: string, ids: seq<nat>, overrides: map<string, string>,
                                failingFetches: set<nat>)
    ensures var r := Collect(nyaaUrl, ids, overrides, failingFetches);
            r.Success? ==>
              forall k :: 0 <= k < |r.value| ==>
                && (exists id :: r.value[k].link == CanonicalLink(nyaaUrl, id))
                && HasOverride(overrides, r.value[k].link) && r.value[k].title == overrides[r.value[k].link]
  {
    var r := Collect(nyaaUrl, ids, overrides, failingFetches);
    if r.Success? {
      forall k | 0 <= k < |r.value|
        ensures && (exists id :: r.value[k].link == CanonicalLink(nyaaUrl, id))
                && HasOverride(overrides, r.value[k].link) && r.value[k].title == overrides[r.value[k].link]
      {
        assert r.value[k] in r.value;
        var id :| id in ids && HasOverride(overrides, CanonicalLink(nyaaUrl, id))
                  && r.value[k] == OverrideRelease(nyaaUrl, overrides, id);
        assert r.value[k].link == CanonicalLink(nyaaUrl, id);
      }
    }
  }

  /** `get`: select, retain, read the IDs, then run the loop over them. */
  method Get(nyaaUrl: string, bestLinks: string, altLinks: string,
             overrides: map<string, string>, failingFetches: set<nat>)
    returns (r: Result<seq<Release>, GetError>)
    ensures r == GetReleases(nyaaUrl, bestLinks, altLinks, overrides, failingFetches)
  {
    var kept := RetainViewLinks(SelectLinks(bestLinks, altLinks), nyaaUrl);
    if |kept| == 0 {
      return Success([]);
    }
    var extracted := ExtractIds(kept);
    if extracted.Failure? {
      return Failure(extracted.error);
    }
    r := PushReleases(nyaaUrl, extracted.value, overrides, failingFetches);
  }

  /** The loop of `get` over the IDs, pushing into a growing list and returning
      early on a rejected fetch. */
  method PushReleases(nyaaUrl: string, ids: seq<nat>, overrides: map<string, string>, failingFetches: set<nat>)
    returns (r: Result<seq<Release>, GetError>)
    ensures r == Collect(nyaaUrl, ids, overrides, failingFetches)
  {
    var releases: seq<Release> := [];
    var i := 0;
    assert ids[i..] == ids;
    assert Prepend([], Collect(nyaaUrl, ids, overrides, failingFetches)) == Collect(nyaaUrl, ids, overrides, failingFetches) by {
      var c := Collect(nyaaUrl, ids, overrides, failingFetches);
      if c.Success? {
        assert [] + c.value == c.value;
      }
    }
    while i < |ids|
      invariant 0 <= i <= |ids|
      invariant Collect(nyaaUrl, ids, overrides, failingFetches)
                == Prepend(releases, Collect(nyaaUrl, ids[i..], overrides, failingFetches))
    {
      var link := CanonicalLink(nyaaUrl, ids[i]);
      CollectStep(nyaaUrl, ids, i, overrides, failingFetches);
      if HasOverride(overrides, link) {
        PrependTwice(releases, [Release(overrides[link], link)], Collect(nyaaUrl, ids[i + 1..], overrides, failingFetches));
        releases := releases + [Release(overrides[link], link)];
      } else if ids[i] in failingFetches {
        return Failure(FetchFailed(ids[i]));
      }
      i := i + 1;
    }
    assert ids[i..] == [];
    assert releases + [] == releases;
    return Success(releases);
  }

  // ---------------------------------------------------------------------------
  // Properties of the pipeline
  // ---------------------------------------------------------------------------

  /** A non-empty best-links string decides the outcome alone: the alternatives
      are never consulted, even when the best links hold no Nyaa link. */
  lemma BestLinksNeverFallBack(nyaaUrl: string, bestLinks: string, alt1: string, alt2: string,
                               overrides: map<string, string>, failingFetches: set<nat>)
    requires |bestLinks| > 0
    ensures GetReleases(nyaaUrl, bestLinks, alt1, overrides, failingFetches)
            == GetReleases(nyaaUrl, bestLinks, alt2, overrides, failingFetches)
  {
  }

  /** The alternatives are used exactly as best links would be when the best
      links are the empty string. */
  lemma AltLinksWhenBestEmpty(nyaaUrl: string, altLinks: string, other: string,
                              overrides: map<string, string>, failingFetches: set<nat>)
    requires |altLinks| > 0
    ensures GetReleases(nyaaUrl, "", altLinks, overrides, failingFetches)
            == GetReleases(nyaaUrl, altLinks, other, overrides, failingFetches)
  {
  }

  /** Every successful release carries a non-empty override verbatim, under
      the rebuilt link of an ID read from one of the retained links. */
  lemma ReleasesCarryOverrides(nyaaUrl: string, bestLinks: string, altLinks: string,
                               overrides: map<string, string>, failingFetches: set<nat>, k: nat)
    ensures var r := GetReleases(nyaaUrl, bestLinks, altLinks, overrides, failingFetches);
            r.Success? && k < |r.value| ==>
              && r.value[k].link in overrides
              && r.value[k].title == overrides[r.value[k].link] && r.value[k].title != ""
              && exists u, id ::
                   && u in RetainViewLinks(SelectLinks(bestLinks, altLinks), nyaaUrl)
                   && ExtractId(u) == Success(id) && r.value[k].link == CanonicalLink(nyaaUrl, id)
  {
    var r := GetReleases(nyaaUrl, bestLinks, altLinks, overrides, failingFetches);
    if r.Success? && k < |r.value| {
      var kept := RetainViewLinks(SelectLinks(bestLinks, altLinks), nyaaUrl);
      GetReleasesViaIds(nyaaUrl, bestLinks, altLinks, overrides, failingFetches);
      var ids := ExtractIds(kept).value;
      assert r.value[k] in r.value;
      var id :| id in ids && HasOverride(overrides, CanonicalLink(nyaaUrl, id))
                && r.value[k] == OverrideRelease(nyaaUrl, overrides, id);
      var i :| 0 <= i < |ids| && ids[i] == id;
      assert ExtractId(kept[i]) == Success(id);
    }
  }

  /** No more releases than retained links. */
  lemma ReleasesBoundedByLinks(nyaaUrl: string, bestLinks: string, altLinks: string,
                               overrides: map<string, string>, failingFetches: set<nat>)
    ensures var r := GetReleases(nyaaUrl, bestLinks, altLinks, overrides, failingFetches);
            r.Success? ==> |r.value| <= |RetainViewLinks(SelectLinks(bestLinks, altLinks), nyaaUrl)|
  {
    GetReleasesViaIds(nyaaUrl, bestLinks, altLinks, overrides, failingFetches);
  }

  /** Without a retained Nyaa link the result is the empty list. */
  lemma NoViewLinksNoReleases(nyaaUrl: string, bestLinks: string, altLinks: string,
                              overrides: map<string, string>, failingFetches: set<nat>)
    requires forall u :: u in SelectLinks(bestLinks, altLinks) ==> !Contains(u, ViewMarker(nyaaUrl))
    ensures GetReleases(nyaaUrl, bestLinks, altLinks, overrides, failingFetches) == Success([])
  {
  }

  // ---------------------------------------------------------------------------
  // Rebuilt links read back
  // ---------------------------------------------------------------------------

  /** The view links of a list of IDs, in order. */
  function ViewLinks(nyaaUrl: string, ids: seq<nat>): (links: seq<string>)
    ensures |links| == |ids|
    ensures forall i :: 0 <= i < |ids| ==> links[i] == CanonicalLink(nyaaUrl, ids[i])
  {
    seq(|ids|, i requires 0 <= i < |ids| => CanonicalLink(nyaaUrl, ids[i]))
  }

  /** Links that all contain the marker are all kept, in order. */
  lemma {:induction false} RetainKeepsMarked(links: seq<string>, nyaaUrl: string)
    requires forall i :: 0 <= i < |links| ==> Contains(links[i], ViewMarker(nyaaUrl))
    ensures RetainViewLinks(links, nyaaUrl) == links
    decreases |links|
  {
    if |links| > 0 {
      RetainKeepsMarked(links[1..], nyaaUrl);
      assert links == [links[0]] + links[1..];
    }
  }

  /** A space-separated best-links string of rebuilt view links yields exactly
      their IDs, in order and with duplicates, whatever the alternatives hold. */
  lemma ReadBackIds(scheme: string, ids: seq<nat>, altLinks: string)
    requires 'n' !in scheme && ' ' !in scheme && |ids| > 0
    ensures var nyaaUrl := scheme + "nyaa.si";
            var bestLinks := Join(ViewLinks(nyaaUrl, ids), ' ');
            ExtractIds(RetainViewLinks(SelectLinks(bestLinks, altLinks), nyaaUrl)) == Success(ids)
  {
    var nyaaUrl := scheme + "nyaa.si";
    var links := ViewLinks(nyaaUrl, ids);
    ViewLinksFacts(scheme, ids);
    var bestLinks := Join(links, ' ');
    JoinNonEmpty(links, ' ');
    SplitJoin(links, ' ');
    assert SelectLinks(bestLinks, altLinks) == links;
    RetainKeepsMarked(links, nyaaUrl);
    ExtractViewLinks(scheme, ids);
  }

  /** Reading the IDs of rebuilt links gives the IDs back. */
  lemma ExtractViewLinks(scheme: string, ids: seq<nat>)
    requires 'n' !in scheme && ' ' !in scheme
    ensures ExtractIds(ViewLinks(scheme + "nyaa.si", ids)) == Success(ids)
  {
    var links := ViewLinks(scheme + "nyaa.si", ids);
    ViewLinksFacts(scheme, ids);
    var r := ExtractIds(links);
    assert r.Success?;
    assert r.value == ids;
  }

  /** Each rebuilt link is space-free, carries the marker and reads back to its ID. */
  lemma ViewLinksFacts(scheme: string, ids: seq<nat>)
    requires 'n' !in scheme && ' ' !in scheme
    ensures var nyaaUrl := scheme + "nyaa.si";
            var links := ViewLinks(nyaaUrl, ids);
            forall i :: 0 <= i < |links| ==>
              && ' ' !in links[i] && |links[i]| > 0
              && Contains(links[i], ViewMarker(nyaaUrl))
              && ExtractId(links[i]) == Success(ids[i])
  {
    var nyaaUrl := scheme + "nyaa.si";
    var links := ViewLinks(nyaaUrl, ids);
    forall i | 0 <= i < |links|
      ensures ' ' !in links[i] && |links[i]| > 0
      ensures Contains(links[i], ViewMarker(nyaaUrl))
      ensures ExtractId(links[i]) == Success(ids[i])
    {
      NoSpaceInLink(scheme, ids[i]);
      assert links[i] == ViewMarker(nyaaUrl) + NatToString(ids[i]);
      ContainsAt(links[i], ViewMarker(nyaaUrl), 0);
      IdRoundTrip(scheme, ids[i]);
    }
  }

  /** A rebuilt link has no space when its scheme has none. */
  lemma NoSpaceInLink(scheme: string, id: nat)
    requires ' ' !in scheme
    ensures ' ' !in CanonicalLink(scheme + "nyaa.si", id)
  {
    var digits := NatToString(id);
    assert CanonicalLink(scheme + "nyaa.si", id) == scheme + "nyaa.si/view/" + digits;
    assert forall k :: 0 <= k < |digits| ==> IsDigit(digits[k]);
  }

  /** Joining a list whose first piece is non-empty gives a non-empty string. */
  lemma JoinNonEmpty(parts: seq<string>, sep: char)
    requires |parts| >= 1 && |parts[0]| > 0
    ensures |Join(parts, sep)| > 0
  {
  }

  /** When every ID has an override, the releases are the override releases of
      the IDs, one per ID and in ID order. */
  lemma {:induction false} AllOverridden(nyaaUrl: string, ids: seq<nat>,
                                         overrides: map<string, string>, failingFetches: set<nat>)
    requires forall i :: 0 <= i < |ids| ==> HasOverride(overrides, CanonicalLink(nyaaUrl, ids[i]))
    ensures var r := Collect(nyaaUrl, ids, overrides, failingFetches);
            && r.Success? && |r.value| == |ids|
            && forall i :: 0 <= i < |ids| ==> r.value[i] == OverrideRelease(nyaaUrl, overrides, ids[i])
    decreases |ids|
  {
    if |ids| > 0 {
      AllOverridden(nyaaUrl, ids[1..], overrides, failingFetches);
      var tail := Collect(nyaaUrl, ids[1..], overrides, failingFetches).value;
      assert HasOverride(overrides, CanonicalLink(nyaaUrl, ids[0]));
      var r := Collect(nyaaUrl, ids, overrides, failingFetches);
      assert r == Success([OverrideRelease(nyaaUrl, overrides, ids[0])] + tail);
      forall i | 1 <= i < |ids|
        ensures r.value[i] == OverrideRelease(nyaaUrl, overrides, ids[i])
      {
        assert r.value[i] == tail[i - 1];
        assert ids[1..][i - 1] == ids[i];
      }
    }
  }

  /** A rejected loop reports the first ID that has no override and whose
      fetch rejects; every earlier ID went through. */
  lemma {:induction false} CollectFailsAtFirst(nyaaUrl: string, ids: seq<nat>,
                                               overrides: map<string, string>, failingFetches: set<nat>)
    requires Collect(nyaaUrl, ids, overrides, failingFetches).Failure?
    ensures exists i :: FailsFirstAt(nyaaUrl, ids, overrides, failingFetches,
                                     Collect(nyaaUrl, ids, overrides, failingFetches).error, i)
    decreases |ids|
  {
    var r := Collect(nyaaUrl, ids, overrides, failingFetches);
    var link := CanonicalLink(nyaaUrl, ids[0]);
    if !HasOverride(overrides, link) && ids[0] in failingFetches {
      assert FailsFirstAt(nyaaUrl, ids, overrides, failingFetches, r.error, 0);
    } else {
      var rest := Collect(nyaaUrl, ids[1..], overrides, failingFetches);
      assert r.error == rest.error;
      CollectFailsAtFirst(nyaaUrl, ids[1..], overrides, failingFetches);
      var j :| FailsFirstAt(nyaaUrl, ids[1..], overrides, failingFetches, rest.error, j);
      FailsFirstAtShift(nyaaUrl, ids, overrides, failingFetches, rest.error, j);
    }
  }

  /** `ids[i]` is the ID the rejection `err` names: its fetch rejects, it has no
      override, and every earlier ID had an override or a fetch that went through. */
  predicate FailsFirstAt(nyaaUrl: string, ids: seq<nat>, overrides: map<string, string>,
                         failingFetches: set<nat>, err: GetError, i: int)
  {
    && 0 <= i < |ids|
    && err == FetchFailed(ids[i])
    && ids[i] in failingFetches && !HasOverride(overrides, CanonicalLink(nyaaUrl, ids[i]))
    && forall k :: 0 <= k < i ==>
         HasOverride(overrides, CanonicalLink(nyaaUrl, ids[k])) || ids[k] !in failingFetches
  }

  /** An ID that goes through in front of the list moves the first failure back by one. */
  lemma FailsFirstAtShift(nyaaUrl: string, ids: seq<nat>, overrides: map<string, string>,
                          failingFetches: set<nat>, err: GetError, j: int)
    requires |ids| > 0
    requires HasOverride(overrides, CanonicalLink(nyaaUrl, ids[0])) || ids[0] !in failingFetches
    requires FailsFirstAt(nyaaUrl, ids[1..], overrides, failingFetches, err, j)
    ensures FailsFirstAt(nyaaUrl, ids, overrides, failingFetches, err, j + 1)
  {
    forall k | 0 <= k < j + 1
      ensures HasOverride(overrides, CanonicalLink(nyaaUrl, ids[k])) || ids[k] !in failingFetches
    {
      if k > 0 {
        assert ids[k] == ids[1..][k - 1];
      }
    }
    assert ids[j + 1] == ids[1..][j];
  }

  /** End to end: rebuilt view links whose every link has an override give one
      release per link, in link order, each titled by its override. */
  lemma OverriddenLinksGiveReleases(scheme: string, ids: seq<nat>, bestLinks: string, altLinks: string,
                                    overrides: map<string, string>, failingFetches: set<nat>)
    requires 'n' !in scheme && ' ' !in scheme && |ids| > 0
    requires bestLinks == Join(ViewLinks(scheme + "nyaa.si", ids), ' ')
    requires forall id :: id in ids ==> HasOverride(overrides, CanonicalLink(scheme + "nyaa.si", id))
    ensures var r := GetReleases(scheme + "nyaa.si", bestLinks, altLinks, overrides, failingFetches);
            && r.Success? && |r.value| == |ids|
            && forall i :: 0 <= i < |ids| ==> r.value[i] == OverrideRelease(scheme + "nyaa.si", overrides, ids[i])
  {
    var nyaaUrl := scheme + "nyaa.si";
    ReadBackIds(scheme, ids, altLinks);
    GetReleasesViaIds(nyaaUrl, bestLinks, altLinks, overrides, failingFetches);
    AllOverridden(nyaaUrl, ids, overrides, failingFetches);
  }

  /** Once the IDs are read, `get` is the loop over them, and a link without an
      ID is the result; the early return on an empty link list agrees with
      running the loop on no IDs. */
  lemma GetReleasesViaIds(nyaaUrl: string, bestLinks: string, altLinks: string,
                          overrides: map<string, string>, failingFetches: set<nat>)
    ensures var e := ExtractIds(RetainViewLinks(SelectLinks(bestLinks, altLinks), nyaaUrl));
            var r := GetReleases(nyaaUrl, bestLinks, altLinks, overrides, failingFetches);
            && (e.Success? ==> r == Collect(nyaaUrl, e.value, overrides, failingFetches))
            && (e.Failure? ==> r == Failure(e.error))
  {
  }

  /** End to end: a successful `get` reads an ID from every retained link and
      returns the override releases of the overridden IDs among them, in link
      order; links whose ID has no override contribute nothing. */
  lemma GetReleasesAreOverrides(nyaaUrl: string, bestLinks: string, altLinks: string,
                                overrides: map<string, string>, failingFetches: set<nat>)
    ensures var kept := RetainViewLinks(SelectLinks(bestLinks, altLinks), nyaaUrl);
            var r := GetReleases(nyaaUrl, bestLinks, altLinks, overrides, failingFetches);
            r.Success? ==>
              && ExtractIds(kept).Success?
              && r.value == OverrideReleases(nyaaUrl, overrides, OverriddenIds(nyaaUrl, ExtractIds(kept).value, overrides))
  {
    var kept := RetainViewLinks(SelectLinks(bestLinks, altLinks), nyaaUrl);
    GetReleasesViaIds(nyaaUrl, bestLinks, altLinks, overrides, failingFetches);
    if ExtractIds(kept).Success? {
      CollectIsOverrideReleases(nyaaUrl, ExtractIds(kept).value, overrides, failingFetches);
    }
  }
}
