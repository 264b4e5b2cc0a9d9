/** The popup's operations on `chrome.storage.local`, modelled as one object whose two
    fields are the stored `subscriptions` and `groups` values; either may be absent, and
    each operation substitutes its own default for an absent value, as the popup does.
    Every method is one read-modify-write cycle that runs to completion. */
module Popup {
  import opened Wrappers
  import opened Text
  import opened ContentScript
  import opened Reconciler
  import opened ViewModel

  class LocalStore {
    var subscriptions: Option<Store>
    var groups: Option<seq<string>>

    constructor (subscriptions: Option<Store>, groups: Option<seq<string>>)
      ensures this.subscriptions == subscriptions && this.groups == groups
    {
      this.subscriptions := subscriptions;
      this.groups := groups;
    }

    /** `syncWithStorage`: the store becomes the scraped list, each channel keeping a
        non-empty stored group or getting the default one; the group list is written
        back as read, or as the default list when absent. */
    method SyncWithStorage(scraped: seq<ScrapedChannel>)
      modifies this
      ensures subscriptions == Some(Merged(scraped, old(subscriptions).GetOr(map[])))
      ensures groups == Some(old(groups).GetOr([DefaultGroup]))
    {
      var stored := subscriptions.GetOr(map[]);
      var current := groups.GetOr([DefaultGroup]);
      var updated: Store := map[];
      for i := 0 to |scraped|
        invariant updated == Merged(scraped[..i], stored)
      {
        assert scraped[..i + 1][..i] == scraped[..i];
        var sub := scraped[i];
        var group := if sub.channelId in stored && stored[sub.channelId].group != "" then stored[sub.channelId].group else DefaultGroup;
        updated := updated[sub.channelId := Subscription(sub.channelId, sub.name, sub.url, sub.icon, group)];
      }
      assert scraped[..|scraped|] == scraped;
      subscriptions, groups := Some(updated), Some(current);
    }

    /** `updateSubscriptionGroup`: a known channel gets `newGroup` (whether or not it is a
        listed label); an unknown channel changes nothing and nothing is written. */
    method UpdateSubscriptionGroup(channelId: string, newGroup: string)
      modifies this
      ensures var before := old(subscriptions).GetOr(map[]);
        subscriptions == if channelId in before then Some(WithGroup(before, channelId, newGroup)) else old(subscriptions)
      ensures groups == old(groups)
    {
      var subs := subscriptions.GetOr(map[]);
      if channelId in subs {
        subs := subs[channelId := subs[channelId].(group := newGroup)];
        subscriptions := Some(subs);
      }
    }

    /** `addNewGroup`, from the trim of the typed name on: an empty name or a listed one
        is refused and nothing is written; otherwise the name is appended. */
    method AddNewGroup(input: string) returns (error: Option<AddError>)
      modifies this
      ensures match AddGroup(old(groups).GetOr([DefaultGroup]), input)
        case Success(gs) => error == None && groups == Some(gs)
        case Failure(e) => error == Some(e) && groups == old(groups)
      ensures subscriptions == old(subscriptions)
    {
      var newGroup := Trim(input);
      if newGroup == "" {
        return Some(EmptyName);
      }
      var current := groups.GetOr([DefaultGroup]);
      if newGroup !in current {
        current := current + [newGroup];
        groups := Some(current);
        error := None;
      } else {
        error := Some(DuplicateGroup);
      }
    }

    /** `deleteGroup`: members of `group` move to the default label and the label is
        filtered out of the list (an absent list reads as empty here). There is no guard
        against deleting the default label itself. */
    method DeleteGroup(group: string)
      modifies this
      ensures subscriptions == Some(Reassigned(old(subscriptions).GetOr(map[]), group))
      ensures groups == Some(Without(old(groups).GetOr([]), group))
    {
      var subs := subscriptions.GetOr(map[]);
      var current := groups.GetOr([]);
      ghost var before := subs;
      var pending := subs.Keys;
      while pending != {}
        invariant pending <= subs.Keys == before.Keys
        invariant forall id :: id in subs ==> subs[id] == if id in pending then before[id] else MovedOut(before[id], group)
        decreases pending
      {
        var id :| id in pending;
        if subs[id].group == group {
          subs := subs[id := subs[id].(group := DefaultGroup)];
        }
        pending := pending - {id};
      }
      assert subs == Reassigned(before, group) by {
        var r := Reassigned(before, group);
        assert subs.Keys == r.Keys;
        forall id | id in subs ensures subs[id] == r[id] {
          assert r[id] == MovedOut(before[id], group);
        }
      }
      var updatedGroups := Without(current, group);
      subscriptions, groups := Some(subs), Some(updatedGroups);
    }

    /** The projection `loadAndDisplayGroups` renders, for the order in which the
        stored subscriptions object enumerates its keys. */
    method LoadGroupedView(order: seq<string>) returns (view: seq<Section>)
      requires IsEnumeration(order, subscriptions.GetOr(map[]))
      ensures view == View(subscriptions.GetOr(map[]), order, groups.GetOr([DefaultGroup]))
    {
      var subs := subscriptions.GetOr(map[]);
      var current := groups.GetOr([DefaultGroup]);
      view := GroupedView(subs, order, current);
    }
  }

  /** The store is in the state the popup intends: a duplicate-free group list holding
      the default label, and every subscription in a listed group. */
  ghost predicate WellFormed(subs: Store, groups: seq<string>) {
    NoDuplicates(groups) && DefaultGroup in groups && Consistent(subs, groups)
  }

  /** A sync keeps a well-formed store well-formed. */
  lemma SyncKeepsWellFormed(scraped: seq<ScrapedChannel>, subs: Store, groups: seq<string>)
    requires WellFormed(subs, groups)
    ensures WellFormed(Merged(scraped, subs), groups)
  {
    MergedKeepsConsistency(scraped, subs, groups);
  }

  /** Adding a group keeps a well-formed store well-formed. */
  lemma AddKeepsWellFormed(subs: Store, groups: seq<string>, input: string)
    requires WellFormed(subs, groups) && AddGroup(groups, input).Success?
    ensures WellFormed(subs, AddGroup(groups, input).value)
  {
  }

  /** Deleting a label other than the default keeps a well-formed store well-formed. */
  lemma DeleteKeepsWellFormed(subs: Store, groups: seq<string>, group: string)
    requires WellFormed(subs, groups) && group != DefaultGroup
    ensures WellFormed(Reassigned(subs, group), Without(groups, group))
  {
    DeleteKeepsConsistency(subs, groups, group);
    WithoutKeepsNoDuplicates(groups, group);
  }

  /** After a well-formed sync every stored subscription is shown. */
  lemma SyncedStoreIsFullyShown(scraped: seq<ScrapedChannel>, subs: Store, groups: seq<string>, order: seq<string>, id: string)
    requires WellFormed(subs, groups)
    requires IsEnumeration(order, Merged(scraped, subs)) && id in Merged(scraped, subs)
    ensures var m := Merged(scraped, subs); var v := View(m, order, groups);
      exists i :: 0 <= i < |v| && v[i].group == m[id].group && m[id] in v[i].members
  {
    MergedKeepsConsistency(scraped, subs, groups);
    ViewShowsListedSubscription(Merged(scraped, subs), order, groups, id);
  }

  /** `deleteGroup` has no guard of its own for the default label (only the rendered
      list omits its delete button): deleting it leaves its members where they are but
      removes the label, so none of them is shown any more. */
  lemma DeletingDefaultHidesItsMembers(subs: Store, groups: seq<string>, order: seq<string>, id: string)
    requires KeysIn(order, subs) && id in subs && subs[id].group == DefaultGroup
    ensures var after := Reassigned(subs, DefaultGroup);
      var v := View(after, order, Without(groups, DefaultGroup));
      after[id] == subs[id] && forall i :: 0 <= i < |v| ==> after[id] !in v[i].members
  {
    ViewHidesUnlistedGroup(Reassigned(subs, DefaultGroup), order, Without(groups, DefaultGroup), id);
  }
}
