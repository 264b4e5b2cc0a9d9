/** The scrape normaliser of the content script: turning the channel elements of the
    subscriptions page into channel records, and deriving a channel id from a
    channel's link. The DOM queries themselves are not modelled; each channel element
    arrives with its name element, link element and image element, each possibly absent. */
module ContentScript {
  import opened Wrappers
  import opened Text

  const ChannelMarker: string := "/channel/"
  const UserMarker: string := "/user/"

  /** The character class `[^/?&]`. */
  predicate IsIdChar(c: char) {
    c != '/' && c != '?' && c != '&'
  }

  /** `marker` occurs at `p` of `url` and is followed by at least one id character:
      where the regular expression `<marker>([^/?&]+)` can start to match. */
  predicate MatchesAt(url: string, marker: string, p: nat) {
    p + |marker| < |url| && url[p..p + |marker|] == marker && IsIdChar(url[p + |marker|])
  }

  /** `p` is where a regular-expression search for `marker` followed by an id finds its match. */
  ghost predicate IsLeftmostMatch(url: string, marker: string, p: nat) {
    MatchesAt(url, marker, p) && forall q: nat :: q < p ==> !MatchesAt(url, marker, q)
  }

  /** `id` is the longest non-empty run of id characters of `url` that starts at `start`. */
  ghost predicate IsMaximalRun(url: string, start: nat, id: string) {
    && id != []
    && start + |id| <= |url|
    && url[start..start + |id|] == id
    && (forall k :: 0 <= k < |id| ==> IsIdChar(id[k]))
    && (start + |id| == |url| || !IsIdChar(url[start + |id|]))
  }

  /** `r` occurs in `url` at position `i`. */
  predicate OccursAt(url: string, r: string, i: nat) {
    i + |r| <= |url| && url[i..i + |r|] == r
  }

  /** The first position at or after `from` where `marker` followed by an id matches. */
  function FirstMatch(url: string, marker: string, from: nat): (r: Option<nat>)
    decreases |url| - from
    ensures r.Some? ==> from <= r.value && MatchesAt(url, marker, r.value)
    ensures r.Some? ==> forall q: nat :: from <= q < r.value ==> !MatchesAt(url, marker, q)
    ensures r.None? ==> forall q: nat :: from <= q ==> !MatchesAt(url, marker, q)
  {
    if from + |marker| >= |url| then None
    else if MatchesAt(url, marker, from) then Some(from)
    else FirstMatch(url, marker, from + 1)
  }

  /** The length of the greedy `[^/?&]+` run starting at `start`. */
  function IdRun(url: string, start: nat): (n: nat)
    requires start <= |url|
    decreases |url| - start
    ensures start + n <= |url|
    ensures forall k :: start <= k < start + n ==> IsIdChar(url[k])
    ensures start + n == |url| || !IsIdChar(url[start + n])
  {
    if start == |url| || !IsIdChar(url[start]) then 0 else 1 + IdRun(url, start + 1)
  }

  /** Capture group 1 of `url.match(/<marker>([^/?&]+)/)`, or None when it does not match. */
  function Capture(url: string, marker: string): (r: Option<string>)
    ensures r.None? <==> forall p: nat :: !MatchesAt(url, marker, p)
    ensures r.Some? ==> exists p: nat :: IsLeftmostMatch(url, marker, p) && IsMaximalRun(url, p + |marker|, r.value)
  {
    match FirstMatch(url, marker, 0)
    case None => None
    case Some(p) =>
      var start := p + |marker|;
      var id := url[start..start + IdRun(url, start)];
      assert IsLeftmostMatch(url, marker, p) && IsMaximalRun(url, start, id);
      Some(id)
  }

  /** `extractChannelIdFromUrl`: the id after the first `/channel/`, failing that the
      name after the first `/user/`, failing both the URL itself. */
  function ExtractChannelId(url: string): (r: string)
    ensures (exists p: nat :: MatchesAt(url, ChannelMarker, p)) ==>
      exists p: nat :: IsLeftmostMatch(url, ChannelMarker, p) && IsMaximalRun(url, p + |ChannelMarker|, r)
    ensures (forall p: nat :: !MatchesAt(url, ChannelMarker, p)) && (exists p: nat :: MatchesAt(url, UserMarker, p)) ==>
      exists p: nat :: IsLeftmostMatch(url, UserMarker, p) && IsMaximalRun(url, p + |UserMarker|, r)
    ensures (forall p: nat :: !MatchesAt(url, ChannelMarker, p) && !MatchesAt(url, UserMarker, p)) ==> r == url
  {
    match Capture(url, ChannelMarker)
    case Some(id) => id
    case None =>
      match Capture(url, UserMarker)
      case Some(id) => id
      case None => url
  }

  /** At most one position is the leftmost match. */
  lemma LeftmostMatchUnique(url: string, marker: string, p: nat, q: nat)
    requires IsLeftmostMatch(url, marker, p) && IsLeftmostMatch(url, marker, q)
    ensures p == q
  {
  }

  /** The maximal run from a given start is unique, so the contract of
      `ExtractChannelId` determines its result. */
  lemma MaximalRunUnique(url: string, start: nat, a: string, b: string)
    requires IsMaximalRun(url, start, a) && IsMaximalRun(url, start, b)
    ensures a == b
  {
    if |a| < |b| {
      RunIsIdChars(url, start, b, |a|);
      assert false;
    } else if |b| < |a| {
      RunIsIdChars(url, start, a, |b|);
      assert false;
    }
  }

  lemma RunIsIdChars(url: string, start: nat, id: string, k: nat)
    requires IsMaximalRun(url, start, id) && k < |id|
    ensures IsIdChar(url[start + k])
  {
    assert url[start..start + |id|][k] == url[start + k];
  }

  /** When either marker matches, the extracted id is a non-empty piece of the URL that
      holds no `/`, `?` or `&`. */
  lemma ExtractedIdIsCleanSubstring(url: string, p: nat)
    requires MatchesAt(url, ChannelMarker, p) || MatchesAt(url, UserMarker, p)
    ensures var r := ExtractChannelId(url);
      r != [] && (forall k :: 0 <= k < |r| ==> IsIdChar(r[k])) && exists i: nat :: OccursAt(url, r, i)
  {
    var r := ExtractChannelId(url);
    var start: nat;
    if exists q: nat :: MatchesAt(url, ChannelMarker, q) {
      var q: nat :| IsLeftmostMatch(url, ChannelMarker, q) && IsMaximalRun(url, q + |ChannelMarker|, r);
      start := q + |ChannelMarker|;
    } else {
      var q: nat :| IsLeftmostMatch(url, UserMarker, q) && IsMaximalRun(url, q + |UserMarker|, r);
      start := q + |UserMarker|;
    }
    assert OccursAt(url, r, start);
  }

  /** A channel link yields its id. */
  lemma ExtractChannelExample()
    ensures ExtractChannelId("/channel/UC1?x") == "UC1"
  {
    var u := "/channel/UC1?x";
    assert u[0..9] == ChannelMarker;
    assert MatchesAt(u, ChannelMarker, 0);
    var p: nat :| IsLeftmostMatch(u, ChannelMarker, p) && IsMaximalRun(u, p + |ChannelMarker|, ExtractChannelId(u));
    assert IsLeftmostMatch(u, ChannelMarker, 0);
    LeftmostMatchUnique(u, ChannelMarker, 0, p);
    assert u[9..12] == "UC1";
    assert IsMaximalRun(u, 9, "UC1");
    MaximalRunUnique(u, 9, "UC1", ExtractChannelId(u));
  }

  /** A legacy user link yields its user name. */
  lemma ExtractUserExample()
    ensures ExtractChannelId("/user/xyz") == "xyz"
  {
    var u := "/user/xyz";
    assert forall p: nat :: !MatchesAt(u, ChannelMarker, p);
    assert u[0..6] == UserMarker;
    assert MatchesAt(u, UserMarker, 0);
    var p: nat :| IsLeftmostMatch(u, UserMarker, p) && IsMaximalRun(u, p + |UserMarker|, ExtractChannelId(u));
    assert IsLeftmostMatch(u, UserMarker, 0);
    LeftmostMatchUnique(u, UserMarker, 0, p);
    assert u[6..9] == "xyz";
    assert IsMaximalRun(u, 6, "xyz");
    MaximalRunUnique(u, 6, "xyz", ExtractChannelId(u));
  }

  /** A link that matches neither pattern is its own id. */
  lemma ExtractNeitherExample()
    ensures ExtractChannelId("@handle") == "@handle"
  {
    var u := "@handle";
    forall p: nat ensures !MatchesAt(u, ChannelMarker, p) && !MatchesAt(u, UserMarker, p) {
      if p < |u| {
        assert u[p] != '/';
      }
    }
  }

  /** The image source with a protocol-relative `//host/...` made absolute with `https:`;
      a missing `src` attribute gives the empty string. */
  function NormaliseIcon(src: Option<string>): (r: string)
    ensures !StartsWith(r, "//")
    ensures src.None? ==> r == ""
    ensures src.Some? ==> (r == src.value <==> !StartsWith(src.value, "//"))
    ensures src.Some? ==> (r == "https:" + src.value <==> StartsWith(src.value, "//"))
  {
    var raw := src.GetOr("");
    if StartsWith(raw, "//") then
      assert ("https:" + raw)[..2] == "ht";
      "https:" + raw
    else raw
  }

  /** Normalising an already normalised icon changes nothing. */
  lemma NormaliseIconIdempotent(src: Option<string>)
    ensures NormaliseIcon(Some(NormaliseIcon(src))) == NormaliseIcon(src)
  {
  }

  datatype NameElement = NameElement(textContent: string)
  datatype LinkElement = LinkElement(href: string)
  /** `getAttribute('src')` is null when the attribute is missing. */
  datatype ImageElement = ImageElement(src: Option<string>)
  /** One `ytd-channel-renderer` element, with the three parts the scraper looks up. */
  datatype ChannelElement = ChannelElement(nameEl: Option<NameElement>, linkEl: Option<LinkElement>, imgEl: Option<ImageElement>)

  /** A scraped channel record, before the popup gives it a group. */
  datatype ScrapedChannel = ScrapedChannel(channelId: string, name: string, url: string, icon: string)

  predicate IsComplete(el: ChannelElement) {
    el.nameEl.Some? && el.linkEl.Some? && el.imgEl.Some?
  }

  /** The record pushed for a complete element. */
  function ToRecord(el: ChannelElement): (r: ScrapedChannel)
    requires IsComplete(el)
    ensures r.url == el.linkEl.value.href
    ensures r.channelId == ExtractChannelId(r.url)
    ensures IsTrimmed(r.name)
    ensures !StartsWith(r.icon, "//")
    ensures r.name == Trim(el.nameEl.value.textContent)
    ensures r.icon == NormaliseIcon(el.imgEl.value.src)
  {
    var href := el.linkEl.value.href;
    ScrapedChannel(ExtractChannelId(href), Trim(el.nameEl.value.textContent), href, NormaliseIcon(el.imgEl.value.src))
  }

  /** The records of the complete elements, in document order. */
  function Records(els: seq<ChannelElement>): (r: seq<ScrapedChannel>)
    ensures |r| <= |els|
    ensures forall k :: 0 <= k < |r| ==>
      && r[k].channelId == ExtractChannelId(r[k].url)
      && IsTrimmed(r[k].name)
      && !StartsWith(r[k].icon, "//")
  {
    if els == [] then []
    else
      var last := els[|els| - 1];
      Records(els[..|els| - 1]) + (if IsComplete(last) then [ToRecord(last)] else [])
  }

  /** The positions of the complete elements, in increasing order. */
  function CompleteIndices(els: seq<ChannelElement>): seq<nat> {
    if els == [] then []
    else
      CompleteIndices(els[..|els| - 1]) + (if IsComplete(els[|els| - 1]) then [|els| - 1] else [])
  }

  /** The complete elements' positions, increasing and within bounds. */
  lemma {:induction false} CompleteIndicesIncreasing(els: seq<ChannelElement>)
    ensures var idx := CompleteIndices(els);
      && |idx| <= |els|
      && (forall k :: 0 <= k < |idx| ==> idx[k] < |els| && IsComplete(els[idx[k]]))
      && (forall k, l :: 0 <= k < l < |idx| ==> idx[k] < idx[l])
  {
    if els != [] {
      var init := els[..|els| - 1];
      CompleteIndicesIncreasing(init);
      assert forall i :: 0 <= i < |init| ==> init[i] == els[i];
    }
  }

  /** Every complete element's position is listed. */
  lemma {:induction false} CompleteIndicesCover(els: seq<ChannelElement>, i: nat)
    requires i < |els| && IsComplete(els[i])
    ensures i in CompleteIndices(els)
  {
    var init := els[..|els| - 1];
    if i < |init| {
      assert init[i] == els[i];
      CompleteIndicesCover(init, i);
    }
  }

  /** Record `k` is the `k`-th complete element, converted. */
  lemma {:induction false} RecordsAt(els: seq<ChannelElement>)
    ensures var recs, idx := Records(els), CompleteIndices(els);
      |recs| == |idx| && forall k :: 0 <= k < |idx| ==> idx[k] < |els| && IsComplete(els[idx[k]]) && recs[k] == ToRecord(els[idx[k]])
  {
    CompleteIndicesIncreasing(els);
    if els != [] {
      var init := els[..|els| - 1];
      RecordsAt(init);
      CompleteIndicesIncreasing(init);
      assert forall i :: 0 <= i < |init| ==> init[i] == els[i];
    }
  }

  /** The records are exactly the complete elements, converted one by one, in document
      order: record `k` comes from the `k`-th complete element, every complete element
      gives one, and there are no more records than elements. */
  lemma RecordsFollowCompleteElements(els: seq<ChannelElement>)
    ensures var recs, idx := Records(els), CompleteIndices(els);
      && |recs| == |idx| <= |els|
      && (forall k :: 0 <= k < |idx| ==> idx[k] < |els| && IsComplete(els[idx[k]]) && recs[k] == ToRecord(els[idx[k]]))
      && (forall k, l :: 0 <= k < l < |idx| ==> idx[k] < idx[l])
      && (forall i :: 0 <= i < |els| && IsComplete(els[i]) ==> i in idx)
  {
    CompleteIndicesIncreasing(els);
    RecordsAt(els);
    forall i | 0 <= i < |els| && IsComplete(els[i]) ensures i in CompleteIndices(els) {
      CompleteIndicesCover(els, i);
    }
  }

  /** `scrapeSubscriptions` from its `forEach` on: one record per complete element. */
  method ScrapeSubscriptions(elements: seq<ChannelElement>) returns (subs: seq<ScrapedChannel>)
    ensures subs == Records(elements)
    ensures forall k :: 0 <= k < |subs| ==>
      && subs[k].channelId == ExtractChannelId(subs[k].url)
      && IsTrimmed(subs[k].name)
      && !StartsWith(subs[k].icon, "//")
  {
    subs := [];
    var i := 0;
    while i < |elements|
      invariant 0 <= i <= |elements|
      invariant subs == Records(elements[..i])
      invariant forall k :: 0 <= k < |subs| ==>
        && subs[k].channelId == ExtractChannelId(subs[k].url)
        && IsTrimmed(subs[k].name)
        && !StartsWith(subs[k].icon, "//")
    {
      var el := elements[i];
      assert elements[..i + 1][..i] == elements[..i];
      if el.nameEl.Some? && el.linkEl.Some? && el.imgEl.Some? {
        var rawImg := el.imgEl.value.src.GetOr("");
        var iconUrl := if StartsWith(rawImg, "//") then "https:" + rawImg else rawImg;
        subs := subs + [ScrapedChannel(ExtractChannelId(el.linkEl.value.href), Trim(el.nameEl.value.textContent), el.linkEl.value.href, iconUrl)];
      }
      i := i + 1;
    }
    assert elements[..i] == elements;
  }
}
