/** The popup's data layer on values: the subscription records kept in storage, the
    merge of a fresh scrape into them, and the edits of groups and assignments. The
    class in module `Popup` performs these read-modify-write cycles on the stored state;
    the functions here say what each cycle writes back. */
module Reconciler {
  import opened Wrappers
  import opened Text
  import opened ContentScript

  /** The label of channels without a group of their own. */
  const DefaultGroup: string := "Ungrouped"

  /** A stored subscription: a scraped channel together with its group label. */
  datatype Subscription = Subscription(channelId: string, name: string, url: string, icon: string, group: string)

  /** The stored `subscriptions` object, keyed by channel id. */
  type Store = map<string, Subscription>

  predicate NoDuplicates(s: seq<string>) {
    forall i, j :: 0 <= i < j < |s| ==> s[i] != s[j]
  }

  /** Every subscription's group is one of the labels: the intended state of the store. */
  ghost predicate Consistent(subs: Store, groups: seq<string>) {
    forall id :: id in subs ==> subs[id].group in groups
  }

  // ---------------------------------------------------------------------------
  // Reconciliation (`syncWithStorage`)

  /** `subscriptions[id]?.group || defaultGroup`: a stored non-empty group survives,
      anything else falls back to the default label. */
  function KeptGroup(stored: Store, id: string): (g: string)
    ensures g != ""
    ensures g == DefaultGroup || (id in stored && g == stored[id].group)
    ensures id in stored && stored[id].group != "" ==> g == stored[id].group
  {
    if id in stored && stored[id].group != "" then stored[id].group else DefaultGroup
  }

  /** `{ ...sub, group: ... }`: the scraped record's fields with the kept group. */
  function Rebuilt(scraped: ScrapedChannel, stored: Store): (r: Subscription)
    ensures r.channelId == scraped.channelId && r.name == scraped.name
    ensures r.url == scraped.url && r.icon == scraped.icon
    ensures r.group != ""
    ensures r.group == DefaultGroup || (scraped.channelId in stored && r.group == stored[scraped.channelId].group)
    ensures r.group == KeptGroup(stored, scraped.channelId)
  {
    Subscription(scraped.channelId, scraped.name, scraped.url, scraped.icon, KeptGroup(stored, scraped.channelId))
  }

  function ChannelIds(scraped: seq<ScrapedChannel>): set<string> {
    set f | f in scraped :: f.channelId
  }

  /** The `updated` object after the loop over the scraped records: each record, in turn,
      written under its channel id. */
  function Merged(scraped: seq<ScrapedChannel>, stored: Store): (m: Store)
    ensures m.Keys == ChannelIds(scraped)
    ensures forall id :: id in m ==> m[id].channelId == id && m[id].group == KeptGroup(stored, id)
  {
    if scraped == [] then map[]
    else
      var init, f := scraped[..|scraped| - 1], scraped[|scraped| - 1];
      assert scraped == init + [f];
      assert ChannelIds(scraped) == ChannelIds(init) + {f.channelId};
      Merged(init, stored)[f.channelId := Rebuilt(f, stored)]
  }

  /** A scraped record that no later record overrides is stored rebuilt, with the kept group. */
  lemma {:induction false} MergedTakesLastRecord(scraped: seq<ScrapedChannel>, stored: Store, k: nat)
    requires k < |scraped|
    requires forall j :: k < j < |scraped| ==> scraped[j].channelId != scraped[k].channelId
    ensures scraped[k].channelId in Merged(scraped, stored)
    ensures Merged(scraped, stored)[scraped[k].channelId] == Rebuilt(scraped[k], stored)
  {
    var init := scraped[..|scraped| - 1];
    if k < |scraped| - 1 {
      assert forall j :: k < j < |init| ==> init[j] == scraped[j];
      MergedTakesLastRecord(init, stored, k);
    }
  }

  /** Every stored record is a rebuilt scraped record with its channel id. */
  lemma {:induction false} MergedComesFromFresh(scraped: seq<ScrapedChannel>, stored: Store, id: string)
    requires id in Merged(scraped, stored)
    ensures exists k :: 0 <= k < |scraped| && scraped[k].channelId == id && Merged(scraped, stored)[id] == Rebuilt(scraped[k], stored)
  {
    var init, f := scraped[..|scraped| - 1], scraped[|scraped| - 1];
    if f.channelId != id {
      MergedComesFromFresh(init, stored, id);
      var k :| 0 <= k < |init| && init[k].channelId == id && Merged(init, stored)[id] == Rebuilt(init[k], stored);
      assert scraped[k] == init[k];
    } else {
      assert scraped[|scraped| - 1].channelId == id;
    }
  }

  /** The merge looks at the old store only through the kept group of each scraped channel. */
  lemma {:induction false} MergedDependsOnKeptGroups(scraped: seq<ScrapedChannel>, s1: Store, s2: Store)
    requires forall f :: f in scraped ==> KeptGroup(s1, f.channelId) == KeptGroup(s2, f.channelId)
    ensures Merged(scraped, s1) == Merged(scraped, s2)
  {
    if scraped != [] {
      var init := scraped[..|scraped| - 1];
      assert forall f :: f in init ==> f in scraped;
      MergedDependsOnKeptGroups(init, s1, s2);
    }
  }

  /** Syncing twice with the same scrape stores the same as syncing once. */
  lemma MergedIdempotent(scraped: seq<ScrapedChannel>, stored: Store)
    ensures Merged(scraped, Merged(scraped, stored)) == Merged(scraped, stored)
  {
    var once := Merged(scraped, stored);
    forall f | f in scraped
      ensures KeptGroup(once, f.channelId) == KeptGroup(stored, f.channelId)
    {
      assert f.channelId in ChannelIds(scraped);
    }
    MergedDependsOnKeptGroups(scraped, once, stored);
  }

  /** No two scraped records share a channel id. */
  predicate UniqueIds(scraped: seq<ScrapedChannel>) {
    forall i, j :: 0 <= i < j < |scraped| ==> scraped[i].channelId != scraped[j].channelId
  }

  /** With distinct channel ids every scraped record is stored rebuilt, with the kept group. */
  lemma MergedAtUniqueId(scraped: seq<ScrapedChannel>, stored: Store, f: ScrapedChannel)
    requires UniqueIds(scraped) && f in scraped
    ensures f.channelId in Merged(scraped, stored) && Merged(scraped, stored)[f.channelId] == Rebuilt(f, stored)
  {
    var k :| 0 <= k < |scraped| && scraped[k] == f;
    MergedTakesLastRecord(scraped, stored, k);
  }

  lemma SameElementsSameIds(a: seq<ScrapedChannel>, b: seq<ScrapedChannel>)
    requires multiset(a) == multiset(b)
    ensures ChannelIds(a) == ChannelIds(b)
  {
    forall f ensures f in a <==> f in b {
      assert f in a <==> f in multiset(a);
      assert f in b <==> f in multiset(b);
    }
  }

  /** With distinct channel ids the merge is a keyed merge: the order of the scrape does not matter. */
  lemma MergedOrderIndependent(a: seq<ScrapedChannel>, b: seq<ScrapedChannel>, stored: Store)
    requires UniqueIds(a) && UniqueIds(b) && multiset(a) == multiset(b)
    ensures Merged(a, stored) == Merged(b, stored)
  {
    var ma, mb := Merged(a, stored), Merged(b, stored);
    SameElementsSameIds(a, b);
    forall id | id in ma ensures id in mb && ma[id] == mb[id] {
      var f :| f in a && f.channelId == id;
      assert f in multiset(a);
      MergedAtUniqueId(a, stored, f);
      MergedAtUniqueId(b, stored, f);
    }
  }

  /** A sync keeps the store consistent with a group list that holds the default label. */
  lemma MergedKeepsConsistency(scraped: seq<ScrapedChannel>, stored: Store, groups: seq<string>)
    requires Consistent(stored, groups) && DefaultGroup in groups
    ensures Consistent(Merged(scraped, stored), groups)
  {
  }

  // ---------------------------------------------------------------------------
  // Assignment edit (`updateSubscriptionGroup`)

  /** The store with one record's group overwritten. */
  function WithGroup(subs: Store, id: string, newGroup: string): (r: Store)
    requires id in subs
    ensures r.Keys == subs.Keys
    ensures r[id].group == newGroup
    ensures r[id].(group := subs[id].group) == subs[id]
    ensures forall other :: other in subs && other != id ==> r[other] == subs[other]
  {
    subs[id := subs[id].(group := newGroup)]
  }

  /** Moving a subscription keeps an otherwise consistent store consistent exactly when
      the target label is in the list; the popup does not check this. */
  lemma WithGroupConsistency(subs: Store, groups: seq<string>, id: string, newGroup: string)
    requires id in subs && Consistent(subs, groups)
    ensures Consistent(WithGroup(subs, id, newGroup), groups) <==> newGroup in groups
  {
    var r := WithGroup(subs, id, newGroup);
    if Consistent(r, groups) {
      assert r[id].group in groups;
    }
  }

  // ---------------------------------------------------------------------------
  // Adding a group (`addNewGroup`)

  datatype AddError = EmptyName | DuplicateGroup

  /** The group list after adding the typed name, or why nothing is added. */
  function AddGroup(groups: seq<string>, input: string): (r: Result<seq<string>, AddError>)
    ensures r == Failure(EmptyName) <==> Trim(input) == ""
    ensures r == Failure(DuplicateGroup) <==> Trim(input) != "" && Trim(input) in groups
    ensures r.Success? ==> r.value == groups + [Trim(input)] && IsTrimmed(r.value[|groups|])
    ensures r.Success? && NoDuplicates(groups) ==> NoDuplicates(r.value)
  {
    var name := Trim(input);
    if name == "" then Failure(EmptyName)
    else if name in groups then Failure(DuplicateGroup)
    else Success(groups + [name])
  }

  /** Adding the same name twice: the second attempt is a duplicate, and the list holds
      the name exactly once. */
  lemma AddTwiceIsDuplicate(groups: seq<string>, input: string)
    requires AddGroup(groups, input).Success?
    ensures AddGroup(AddGroup(groups, input).value, input) == Failure(DuplicateGroup)
    ensures multiset(AddGroup(groups, input).value)[Trim(input)] == 1
  {
    var name := Trim(input);
    assert name !in multiset(groups);
  }

  // ---------------------------------------------------------------------------
  // Deleting a group (`deleteGroup`)

  /** One record after its group is deleted: members of `g` move to the default label. */
  function MovedOut(s: Subscription, g: string): (r: Subscription)
    ensures r.(group := s.group) == s
    ensures g != DefaultGroup ==> r.group != g
    ensures s.group != g ==> r == s
    ensures s.group == g ==> r.group == DefaultGroup
  {
    if s.group == g then s.(group := DefaultGroup) else s
  }

  /** The store after the reassignment loop of `deleteGroup`. */
  function Reassigned(subs: Store, g: string): (r: Store)
    ensures r.Keys == subs.Keys
    ensures forall id :: id in subs && subs[id].group == g ==> r[id] == subs[id].(group := DefaultGroup)
    ensures forall id :: id in subs && subs[id].group != g ==> r[id] == subs[id]
    ensures g != DefaultGroup ==> forall id :: id in r ==> r[id].group != g
  {
    map id | id in subs :: MovedOut(subs[id], g)
  }

  /** `r` is `s` with some elements left out, the rest in their order. */
  ghost predicate SubsequenceOf(r: seq<string>, s: seq<string>)
    decreases |s|
  {
    r == [] || (s != [] && ((r[0] == s[0] && SubsequenceOf(r[1..], s[1..])) || SubsequenceOf(r, s[1..])))
  }

  /** `groups.filter((x) => x !== g)`. */
  function Without(groups: seq<string>, g: string): (r: seq<string>)
    ensures forall x :: x in r <==> x in groups && x != g
    ensures forall x :: x != g ==> multiset(r)[x] == multiset(groups)[x]
    ensures |r| <= |groups|
  {
    if groups == [] then []
    else
      assert groups == [groups[0]] + groups[1..];
      (if groups[0] != g then [groups[0]] else []) + Without(groups[1..], g)
  }

  /** The labels that remain keep their relative order. */
  lemma {:induction false} WithoutIsSubsequence(groups: seq<string>, g: string)
    ensures SubsequenceOf(Without(groups, g), groups)
  {
    if groups != [] {
      WithoutIsSubsequence(groups[1..], g);
      if groups[0] != g {
        assert Without(groups, g) == [groups[0]] + Without(groups[1..], g);
      } else {
        assert Without(groups, g) == Without(groups[1..], g);
      }
    }
  }

  /** A list without duplicates stays without duplicates. */
  lemma {:induction false} WithoutKeepsNoDuplicates(groups: seq<string>, g: string)
    requires NoDuplicates(groups)
    ensures NoDuplicates(Without(groups, g))
  {
    if groups != [] {
      var rest := groups[1..];
      assert NoDuplicates(rest);
      WithoutKeepsNoDuplicates(rest, g);
      assert groups[0] !in rest;
    }
  }

  /** Deleting a label other than the default keeps the store consistent and the default label listed. */
  lemma DeleteKeepsConsistency(subs: Store, groups: seq<string>, g: string)
    requires Consistent(subs, groups) && DefaultGroup in groups && g != DefaultGroup
    ensures Consistent(Reassigned(subs, g), Without(groups, g))
    ensures DefaultGroup in Without(groups, g)
  {
  }
}
