/** The grouped projection the popup renders (`loadAndDisplayGroups` up to the DOM
    construction): subscriptions bucketed by group, the group list sorted, each bucket
    sorted by channel name, and a section for each listed group that has members. */
module ViewModel {
  import opened Text
  import opened Sorting
  import opened Reconciler

  /** One rendered group: its header label and its channel rows, in display order. */
  datatype Section = Section(group: string, members: seq<Subscription>)

  /** `order` lists the store's keys, each once: the order in which `for (const id in subs)` visits them. */
  predicate IsEnumeration(order: seq<string>, subs: Store) {
    && (forall i :: 0 <= i < |order| ==> order[i] in subs)
    && (forall id :: id in subs ==> id in order)
    && NoDuplicates(order)
  }

  predicate KeysIn(order: seq<string>, subs: Store) {
    forall i :: 0 <= i < |order| ==> order[i] in subs
  }

  /** `grouped[g]` after the bucketing loop: the records of group `g`, in visiting order. */
  function Bucket(order: seq<string>, subs: Store, g: string): (r: seq<Subscription>)
    requires KeysIn(order, subs)
    ensures |r| <= |order|
    ensures forall k :: 0 <= k < |r| ==> r[k].group == g
  {
    if order == [] then []
    else
      var sub := subs[order[|order| - 1]];
      Bucket(order[..|order| - 1], subs, g) + (if sub.group == g then [sub] else [])
  }

  function ByName(s: Subscription): string { s.name }

  /** The sections for the labels `gs`, walked in order, skipping labels without members. */
  function Sections(gs: seq<string>, order: seq<string>, subs: Store): (r: seq<Section>)
    requires KeysIn(order, subs)
    ensures |r| <= |gs|
    ensures forall k :: 0 <= k < |r| ==> r[k].group in gs && r[k].members != []
  {
    if gs == [] then []
    else
      var g := gs[|gs| - 1];
      var b := Bucket(order, subs, g);
      Sections(gs[..|gs| - 1], order, subs) + (if b != [] then [Section(g, SortBy(b, ByName))] else [])
  }

  /** The whole projection: the labels sorted, then their non-empty sections. */
  function View(subs: Store, order: seq<string>, groups: seq<string>): (r: seq<Section>)
    requires KeysIn(order, subs)
    ensures |r| <= |groups|
    ensures forall k :: 0 <= k < |r| ==> r[k].group in groups && r[k].members != []
  {
    var sorted := SortBy(groups, Identity);
    assert forall x :: x in sorted ==> x in multiset(sorted);
    Sections(sorted, order, subs)
  }

  /** The bucketing loop (`for (const id in subs)`): `grouped` holds a bucket exactly for
      the groups that have members. */
  method BucketByGroup(subs: Store, order: seq<string>) returns (grouped: map<string, seq<Subscription>>)
    requires KeysIn(order, subs)
    ensures forall g :: g in grouped <==> Bucket(order, subs, g) != []
    ensures forall g :: g in grouped ==> grouped[g] == Bucket(order, subs, g)
  {
    grouped := map[];
    for i := 0 to |order|
      invariant forall g :: g in grouped <==> Bucket(order[..i], subs, g) != []
      invariant forall g :: g in grouped ==> grouped[g] == Bucket(order[..i], subs, g)
    {
      assert order[..i + 1][..i] == order[..i];
      var sub := subs[order[i]];
      if sub.group !in grouped {
        grouped := grouped[sub.group := []];
      }
      grouped := grouped[sub.group := grouped[sub.group] + [sub]];
    }
    assert order[..|order|] == order;
  }

  /** `for (const group in grouped) grouped[group].sort(...)`: every bucket sorted by name. */
  method SortBuckets(grouped: map<string, seq<Subscription>>) returns (sorted: map<string, seq<Subscription>>)
    ensures sorted.Keys == grouped.Keys
    ensures forall g :: g in sorted ==> sorted[g] == SortBy(grouped[g], ByName)
  {
    sorted := grouped;
    var pending := grouped.Keys;
    while pending != {}
      invariant pending <= sorted.Keys == grouped.Keys
      invariant forall g :: g in sorted ==> sorted[g] == if g in pending then grouped[g] else SortBy(grouped[g], ByName)
      decreases pending
    {
      var g :| g in pending;
      sorted := sorted[g := SortBy(sorted[g], ByName)];
      pending := pending - {g};
    }
  }

  /** The walk over the sorted labels (`for (const group of groups)`), skipping labels
      without a bucket or with an empty one. */
  method WalkGroups(subs: Store, order: seq<string>, sortedGroups: seq<string>, sorted: map<string, seq<Subscription>>)
    returns (view: seq<Section>)
    requires KeysIn(order, subs)
    requires forall g :: g in sorted <==> Bucket(order, subs, g) != []
    requires forall g :: g in sorted ==> sorted[g] == SortBy(Bucket(order, subs, g), ByName)
    ensures view == Sections(sortedGroups, order, subs)
  {
    view := [];
    for j := 0 to |sortedGroups|
      invariant view == Sections(sortedGroups[..j], order, subs)
    {
      var g := sortedGroups[j];
      ghost var b := Bucket(order, subs, g);
      assert sortedGroups[..j + 1][..j] == sortedGroups[..j];
      assert Sections(sortedGroups[..j + 1], order, subs)
          == Sections(sortedGroups[..j], order, subs) + (if b != [] then [Section(g, SortBy(b, ByName))] else []);
      if g in sorted && |sorted[g]| != 0 {
        view := view + [Section(g, sorted[g])];
      }
    }
    assert sortedGroups[..|sortedGroups|] == sortedGroups;
  }

  /** `loadAndDisplayGroups`, lines 24-44: bucket, sort, walk the sorted labels. */
  method GroupedView(subs: Store, order: seq<string>, groups: seq<string>) returns (view: seq<Section>)
    requires KeysIn(order, subs)
    ensures view == View(subs, order, groups)
  {
    var grouped := BucketByGroup(subs, order);
    var sortedGroups := SortBy(groups, Identity);
    var sorted := SortBuckets(grouped);
    view := WalkGroups(subs, order, sortedGroups, sorted);
  }

  // ---------------------------------------------------------------------------
  // What the projection shows

  /** The channel ids whose subscription is in group `g`. */
  function Members(subs: Store, g: string): set<string> {
    set id | id in subs && subs[id].group == g
  }

  /** A bucket holds only records of its group, taken from the store. */
  lemma {:induction false} BucketSound(order: seq<string>, subs: Store, g: string, x: Subscription)
    requires KeysIn(order, subs) && x in Bucket(order, subs, g)
    ensures x.group == g
    ensures exists i :: 0 <= i < |order| && subs[order[i]] == x
  {
    var init := order[..|order| - 1];
    if x in Bucket(init, subs, g) {
      BucketSound(init, subs, g, x);
      var i :| 0 <= i < |init| && subs[init[i]] == x;
      assert order[i] == init[i];
    }
  }

  /** Every visited record of group `g` is in its bucket. */
  lemma {:induction false} BucketComplete(order: seq<string>, subs: Store, g: string, i: nat)
    requires KeysIn(order, subs) && i < |order| && subs[order[i]].group == g
    ensures subs[order[i]] in Bucket(order, subs, g)
  {
    var init := order[..|order| - 1];
    if i < |init| {
      assert init[i] == order[i];
      BucketComplete(init, subs, g, i);
    }
  }

  /** A bucket has one entry per visited channel of its group. */
  lemma {:induction false} BucketSize(order: seq<string>, subs: Store, g: string)
    requires KeysIn(order, subs) && NoDuplicates(order)
    ensures |Bucket(order, subs, g)| == |set id | id in order && subs[id].group == g|
  {
    if order != [] {
      var init, last := order[..|order| - 1], order[|order| - 1];
      assert NoDuplicates(init);
      BucketSize(init, subs, g);
      var before := set id | id in init && subs[id].group == g;
      var after := set id | id in order && subs[id].group == g;
      assert last !in init;
      assert order == init + [last];
      if subs[last].group == g {
        assert after == before + {last};
      } else {
        assert after == before;
      }
    }
  }

  /** Each section is a listed label with a non-empty bucket, sorted by name. */
  lemma {:induction false} SectionsAreBuckets(gs: seq<string>, order: seq<string>, subs: Store, i: nat)
    requires KeysIn(order, subs) && i < |Sections(gs, order, subs)|
    ensures var sec := Sections(gs, order, subs)[i];
      sec.group in gs && Bucket(order, subs, sec.group) != [] && sec.members == SortBy(Bucket(order, subs, sec.group), ByName)
  {
    var init := gs[..|gs| - 1];
    if i < |Sections(init, order, subs)| {
      SectionsAreBuckets(init, order, subs, i);
      assert forall x :: x in init ==> x in gs;
    }
  }

  /** The sections' labels are in ascending order. */
  ghost predicate InLabelOrder(secs: seq<Section>) {
    forall i, j :: 0 <= i < j < |secs| ==> LexLeq(secs[i].group, secs[j].group)
  }

  /** Labels bounded by `top` give sections bounded by `top`. */
  lemma SectionsBounded(gs: seq<string>, order: seq<string>, subs: Store, top: string)
    requires KeysIn(order, subs) && forall k :: 0 <= k < |gs| ==> LexLeq(gs[k], top)
    ensures forall i :: 0 <= i < |Sections(gs, order, subs)| ==> LexLeq(Sections(gs, order, subs)[i].group, top)
  {
    forall i | 0 <= i < |Sections(gs, order, subs)| ensures LexLeq(Sections(gs, order, subs)[i].group, top) {
      SectionsAreBuckets(gs, order, subs, i);
    }
  }

  /** Walking sorted labels yields sections in label order. */
  lemma {:induction false} SectionsSorted(gs: seq<string>, order: seq<string>, subs: Store)
    requires KeysIn(order, subs) && SortedBy(gs, Identity)
    ensures InLabelOrder(Sections(gs, order, subs))
  {
    if gs != [] {
      var init, g := gs[..|gs| - 1], gs[|gs| - 1];
      var secs, before := Sections(gs, order, subs), Sections(init, order, subs);
      SortedInit(gs, Identity);
      SectionsSorted(init, order, subs);
      assert forall k :: 0 <= k < |init| ==> LexLeq(init[k], g) by {
        forall k | 0 <= k < |init| ensures LexLeq(init[k], g) {
          assert LexLeq(Identity(gs[k]), Identity(gs[|gs| - 1]));
        }
      }
      SectionsBounded(init, order, subs, g);
      assert forall i :: 0 <= i < |before| ==> secs[i] == before[i];
      assert |secs| == |before| || (|secs| == |before| + 1 && secs[|before|].group == g);
      forall i, j | 0 <= i < j < |secs| ensures LexLeq(secs[i].group, secs[j].group) {
        assert secs[i] == before[i];
        if j < |before| {
          assert secs[j] == before[j];
          assert LexLeq(before[i].group, before[j].group);
        } else {
          assert secs[j].group == g;
          assert LexLeq(before[i].group, g);
        }
      }
    }
  }

  /** Every listed label with a non-empty bucket gets a section. */
  lemma {:induction false} SectionsCover(gs: seq<string>, order: seq<string>, subs: Store, g: string)
    requires KeysIn(order, subs) && g in gs && Bucket(order, subs, g) != []
    ensures exists i :: 0 <= i < |Sections(gs, order, subs)| && Sections(gs, order, subs)[i].group == g
  {
    var init := gs[..|gs| - 1];
    if g == gs[|gs| - 1] {
      assert Sections(gs, order, subs)[|Sections(gs, order, subs)| - 1].group == g;
    } else {
      assert gs == init + [gs[|gs| - 1]];
      SectionsCover(init, order, subs, g);
      var i :| 0 <= i < |Sections(init, order, subs)| && Sections(init, order, subs)[i].group == g;
      assert Sections(gs, order, subs)[i] == Sections(init, order, subs)[i];
    }
  }

  /** The sections come in label order; each belongs to a label of the group list, is
      non-empty, is sorted by channel name, and holds only stored records of its own
      group. */
  lemma ViewShape(subs: Store, order: seq<string>, groups: seq<string>)
    requires KeysIn(order, subs)
    ensures var v := View(subs, order, groups);
      && InLabelOrder(v)
      && (forall i :: 0 <= i < |v| ==>
            && v[i].group in groups
            && v[i].members != []
            && SortedBy(v[i].members, ByName)
            && (forall x :: x in v[i].members ==> x.group == v[i].group && x in subs.Values))
  {
    var sortedGroups := SortBy(groups, Identity);
    var v := View(subs, order, groups);
    SectionsSorted(sortedGroups, order, subs);
    forall i | 0 <= i < |v|
      ensures v[i].group in groups && v[i].members != [] && SortedBy(v[i].members, ByName)
      ensures forall x :: x in v[i].members ==> x.group == v[i].group && x in subs.Values
    {
      SectionsAreBuckets(sortedGroups, order, subs, i);
      var b := Bucket(order, subs, v[i].group);
      assert v[i].group in multiset(sortedGroups);
      assert b[0] in multiset(b);
      forall x | x in v[i].members ensures x.group == v[i].group && x in subs.Values {
        assert x in multiset(v[i].members);
        BucketSound(order, subs, v[i].group, x);
      }
    }
  }

  /** A subscription whose group is in the list is shown, in its own group's section. */
  lemma ViewShowsListedSubscription(subs: Store, order: seq<string>, groups: seq<string>, id: string)
    requires IsEnumeration(order, subs) && id in subs && subs[id].group in groups
    ensures var v := View(subs, order, groups);
      exists i :: 0 <= i < |v| && v[i].group == subs[id].group && subs[id] in v[i].members
  {
    var g := subs[id].group;
    var sortedGroups := SortBy(groups, Identity);
    var v := View(subs, order, groups);
    var k :| 0 <= k < |order| && order[k] == id;
    BucketComplete(order, subs, g, k);
    assert g in multiset(groups);
    SectionsCover(sortedGroups, order, subs, g);
    var i :| 0 <= i < |v| && v[i].group == g;
    SectionsAreBuckets(sortedGroups, order, subs, i);
    assert subs[id] in multiset(Bucket(order, subs, g));
  }

  /** A subscription whose group is not in the list is not shown. */
  lemma ViewHidesUnlistedGroup(subs: Store, order: seq<string>, groups: seq<string>, id: string)
    requires KeysIn(order, subs) && id in subs && subs[id].group !in groups
    ensures var v := View(subs, order, groups);
      forall i :: 0 <= i < |v| ==> subs[id] !in v[i].members
  {
    ViewShape(subs, order, groups);
  }

  /** Each section shows as many rows as its group has subscriptions. */
  lemma ViewSectionSize(subs: Store, order: seq<string>, groups: seq<string>, i: nat)
    requires IsEnumeration(order, subs) && i < |View(subs, order, groups)|
    ensures var sec := View(subs, order, groups)[i];
      |sec.members| == |Members(subs, sec.group)|
  {
    var sec := View(subs, order, groups)[i];
    SectionsAreBuckets(SortBy(groups, Identity), order, subs, i);
    BucketSize(order, subs, sec.group);
    assert (set id | id in order && subs[id].group == sec.group) == Members(subs, sec.group);
  }

  /** A duplicate-free label list gives each label at most one section. */
  lemma {:induction false} SectionsDistinct(gs: seq<string>, order: seq<string>, subs: Store)
    requires KeysIn(order, subs) && NoDuplicates(gs)
    ensures forall i, j :: 0 <= i < j < |Sections(gs, order, subs)| ==>
      Sections(gs, order, subs)[i].group != Sections(gs, order, subs)[j].group
  {
    if gs != [] {
      var init, g := gs[..|gs| - 1], gs[|gs| - 1];
      assert NoDuplicates(init);
      SectionsDistinct(init, order, subs);
      var before := Sections(init, order, subs);
      var b := Bucket(order, subs, g);
      var secs := Sections(gs, order, subs);
      assert secs == before + (if b != [] then [Section(g, SortBy(b, ByName))] else []);
      assert g !in init;
      forall i, j | 0 <= i < j < |secs| ensures secs[i].group != secs[j].group {
        if j == |before| {
          assert secs[j] == Section(g, SortBy(b, ByName));
          assert secs[i] == before[i] && before[i].group in init;
        } else {
          assert secs[i] == before[i] && secs[j] == before[j];
        }
      }
    }
  }

  /** A duplicate-free sequence holds each element at most once. */
  lemma {:induction false} DistinctCounts(s: seq<string>)
    requires NoDuplicates(s)
    ensures forall x :: multiset(s)[x] <= 1
  {
    if s != [] {
      var init, last := s[..|s| - 1], s[|s| - 1];
      assert s == init + [last];
      assert NoDuplicates(init);
      DistinctCounts(init);
      assert last !in init;
    }
  }

  /** A sequence holding each element at most once is duplicate-free. */
  lemma CountsDistinct(s: seq<string>)
    requires forall x :: multiset(s)[x] <= 1
    ensures NoDuplicates(s)
  {
    forall i, j | 0 <= i < j < |s| ensures s[i] != s[j] {
      if s[i] == s[j] {
        CountedTwice(s, i, j);
        assert false;
      }
    }
  }

  /** Two equal positions make the element occur at least twice. */
  lemma CountedTwice(s: seq<string>, i: nat, j: nat)
    requires i < j < |s| && s[i] == s[j]
    ensures multiset(s)[s[j]] >= 2
  {
    assert s == s[..j] + [s[j]] + s[j + 1..];
    assert s[..j][i] == s[i];
    assert s[i] in multiset(s[..j]);
  }

  /** The view of a duplicate-free label list shows each label at most once. */
  lemma ViewDistinct(subs: Store, order: seq<string>, groups: seq<string>)
    requires KeysIn(order, subs) && NoDuplicates(groups)
    ensures var v := View(subs, order, groups);
      forall i, j :: 0 <= i < j < |v| ==> v[i].group != v[j].group
  {
    var sorted := SortBy(groups, Identity);
    DistinctCounts(groups);
    CountsDistinct(sorted);
    SectionsDistinct(sorted, order, subs);
    assert View(subs, order, groups) == Sections(sorted, order, subs);
  }
}
