/**
 * The milestone list of the progress page: which of a character's
 * milestones are shown (the profile-wide ones and the character's own),
 * how the two lists are merged and turned into pursuit items, and how the
 * items are grouped and ordered by the power bonus of their rewards.
 * Manifest lookups are parameters: `defOf` (the milestone definition of a
 * hash, None when the manifest has none), `toItems` (the items of a
 * milestone) and `bonus` (the engram power bonus of a reward).
 */
module Milestones {
  import opened Seqs

  /** A quest of a milestone, reduced to the status fields the filter reads. */
  datatype Quest = Quest(stepObjectives: nat, started: bool, completed: bool, redeemed: bool)

  /**
   * A milestone of the profile response. `availableQuests` is None when the
   * response has no quest list; `hasActivities`, `hasVendors` and
   * `hasRewards` say whether the corresponding list is present at all (a
   * present list is truthy even when it is empty).
   */
  datatype Milestone = Milestone(milestoneHash: int, order: int, availableQuests: Option<seq<Quest>>,
                                 hasActivities: bool, hasVendors: bool, hasRewards: bool)

  /** The two flags of a milestone definition the character filter reads. */
  datatype MilestoneDef = MilestoneDef(showInExplorer: bool, showInMilestones: bool)

  /** A pursuit item made from a milestone; `pursuitRewards` is None when it has no pursuit info. */
  datatype MilestoneItem = MilestoneItem(hash: int, pursuitRewards: Option<seq<int>>)

  /** `Object.values` of the character's milestone dictionary, or nothing when it is missing. */
  function AllMilestones(data: Option<map<int, Milestone>>): (r: seq<Milestone>)
    ensures data.None? ==> r == []
    ensures data.Some? ==> |r| == |data.value|
    ensures data.Some? ==> forall k :: k in data.value ==> data.value[k] in r
    ensures data.Some? ==> forall m :: m in r ==> exists k :: k in data.value && data.value[k] == m
  {
    match data
    case None => []
    case Some(d) => Values(d)
  }

  function Order(m: Milestone): int {
    m.order
  }

  function MilestoneHashOf(m: Milestone): int {
    m.milestoneHash
  }

  // ---------------------------------------------------------------------------
  // milestonesForProfile
  // ---------------------------------------------------------------------------

  /** The profile-wide filter: no quests, no activities, vendors only with rewards, and a known definition. */
  predicate ProfileShown(defOf: int -> Option<MilestoneDef>, m: Milestone) {
    m.availableQuests.None?
    && !m.hasActivities
    && (!m.hasVendors || m.hasRewards)
    && defOf(m.milestoneHash).Some?
  }

  /**
   * milestonesForProfile: exactly the milestones that pass the profile
   * filter, each as often as in the input, ascending by `order`, and
   * milestones of equal `order` in their input order.
   */
  function MilestonesForProfile(defOf: int -> Option<MilestoneDef>, data: Option<map<int, Milestone>>)
    : (r: seq<Milestone>)
    ensures forall m :: m in r ==> m in AllMilestones(data) && ProfileShown(defOf, m)
    ensures forall m :: m in AllMilestones(data) && ProfileShown(defOf, m) ==> m in r
    ensures multiset(r) == multiset(Filter(AllMilestones(data), m => ProfileShown(defOf, m)))
    ensures SortedBy(r, Order)
    ensures forall k :: WithKey(r, Order, k) == WithKey(Filter(AllMilestones(data), m => ProfileShown(defOf, m)), Order, k)
  {
    var kept := Filter(AllMilestones(data), m => ProfileShown(defOf, m));
    var r := SortBy(kept, Order);
    SortedKeepsMembers(kept, r);
    forall k ensures WithKey(r, Order, k) == WithKey(kept, Order, k) {
      SortByStable(kept, Order, k);
    }
    r
  }

  /** Equal multisets have the same members. */
  lemma SortedKeepsMembers(s: seq<Milestone>, r: seq<Milestone>)
    requires multiset(r) == multiset(s)
    ensures forall m :: m in r <==> m in s
  {
    forall m ensures m in r <==> m in s {
      assert m in r <==> m in multiset(r);
      assert m in s <==> m in multiset(s);
    }
  }

  // ---------------------------------------------------------------------------
  // milestonesForCharacter
  // ---------------------------------------------------------------------------

  /** A quest still worth showing: it has steps, is started, and is not both completed and redeemed. */
  predicate QuestActive(q: Quest) {
    q.stepObjectives > 0 && q.started && (!q.completed || !q.redeemed)
  }

  /**
   * The character filter: a definition that shows in the explorer or the
   * milestone list, and either activities, or no quest list, or only
   * active quests.
   */
  predicate CharacterShown(defOf: int -> Option<MilestoneDef>, m: Milestone) {
    defOf(m.milestoneHash).Some?
    && (defOf(m.milestoneHash).value.showInExplorer || defOf(m.milestoneHash).value.showInMilestones)
    && (m.hasActivities
        || m.availableQuests.None?
        || forall q :: q in m.availableQuests.value ==> QuestActive(q))
  }

  /**
   * milestonesForCharacter: exactly the milestones that pass the character
   * filter, each as often as in the input, ascending by `order`, and
   * milestones of equal `order` in their input order.
   */
  function MilestonesForCharacter(defOf: int -> Option<MilestoneDef>, data: Option<map<int, Milestone>>)
    : (r: seq<Milestone>)
    ensures forall m :: m in r ==> m in AllMilestones(data) && CharacterShown(defOf, m)
    ensures forall m :: m in AllMilestones(data) && CharacterShown(defOf, m) ==> m in r
    ensures multiset(r) == multiset(Filter(AllMilestones(data), m => CharacterShown(defOf, m)))
    ensures SortedBy(r, Order)
    ensures forall k :: WithKey(r, Order, k) == WithKey(Filter(AllMilestones(data), m => CharacterShown(defOf, m)), Order, k)
  {
    var kept := Filter(AllMilestones(data), m => CharacterShown(defOf, m));
    var r := SortBy(kept, Order);
    SortedKeepsMembers(kept, r);
    forall k ensures WithKey(r, Order, k) == WithKey(kept, Order, k) {
      SortByStable(kept, Order, k);
    }
    r
  }

  /**
   * A milestone with a quest list is never profile-wide, and a profile-wide
   * milestone is shown for the character too whenever its definition shows
   * it: the two lists can overlap, which is what the merge resolves.
   */
  lemma ProfileAndCharacterFilters(defOf: int -> Option<MilestoneDef>, m: Milestone)
    ensures m.availableQuests.Some? ==> !ProfileShown(defOf, m)
    ensures ProfileShown(defOf, m)
            && (defOf(m.milestoneHash).value.showInExplorer || defOf(m.milestoneHash).value.showInMilestones)
            ==> CharacterShown(defOf, m)
  {
  }

  // ---------------------------------------------------------------------------
  // The merge and the grouping by power bonus
  // ---------------------------------------------------------------------------

  /**
   * `uniqBy([...character, ...profile], m => m.milestoneHash)`: one
   * milestone per hash; the character's own copy wins over a profile-wide
   * one, and within a list the first copy wins.
   */
  function MergedMilestones(character: seq<Milestone>, profile: seq<Milestone>): (r: seq<Milestone>)
    ensures forall i, j :: 0 <= i < j < |r| ==> r[i].milestoneHash != r[j].milestoneHash
    ensures forall m :: m in character + profile ==> exists i :: 0 <= i < |r| && r[i].milestoneHash == m.milestoneHash
    ensures forall i :: 0 <= i < |r| && FirstWithKey(character, MilestoneHashOf, r[i].milestoneHash).Some? ==>
              FirstWithKey(character, MilestoneHashOf, r[i].milestoneHash) == Some(r[i])
    ensures forall i :: 0 <= i < |r| && FirstWithKey(character, MilestoneHashOf, r[i].milestoneHash).None? ==>
              FirstWithKey(profile, MilestoneHashOf, r[i].milestoneHash) == Some(r[i])
    ensures forall i, j :: 0 <= i < j < |r| ==>
              FirstIndex(character + profile, MilestoneHashOf, r[i].milestoneHash)
              < FirstIndex(character + profile, MilestoneHashOf, r[j].milestoneHash)
    ensures forall i, j :: 0 <= i < j < |r| && FirstWithKey(character, MilestoneHashOf, r[j].milestoneHash).Some? ==>
              FirstWithKey(character, MilestoneHashOf, r[i].milestoneHash).Some?
  {
    var r := UniqBy(character + profile, MilestoneHashOf);
    forall i, j | 0 <= i < j < |r|
      ensures FirstIndex(character + profile, MilestoneHashOf, r[i].milestoneHash)
              < FirstIndex(character + profile, MilestoneHashOf, r[j].milestoneHash)
    {
      assert MilestoneHashOf(r[i]) == r[i].milestoneHash && MilestoneHashOf(r[j]) == r[j].milestoneHash;
    }
    forall i, j | 0 <= i < j < |r| && FirstWithKey(character, MilestoneHashOf, r[j].milestoneHash).Some?
      ensures FirstWithKey(character, MilestoneHashOf, r[i].milestoneHash).Some?
    {
      FirstIndexPrefix(character, profile, MilestoneHashOf, r[i].milestoneHash);
      FirstIndexPrefix(character, profile, MilestoneHashOf, r[j].milestoneHash);
    }
    forall i | 0 <= i < |r| ensures FirstWithKey(character + profile, MilestoneHashOf, r[i].milestoneHash) == Some(r[i]) {
      assert MilestoneHashOf(r[i]) == r[i].milestoneHash;
    }
    forall i | 0 <= i < |r|
      ensures FirstWithKey(character + profile, MilestoneHashOf, r[i].milestoneHash)
           == if FirstWithKey(character, MilestoneHashOf, r[i].milestoneHash).Some?
              then FirstWithKey(character, MilestoneHashOf, r[i].milestoneHash)
              else FirstWithKey(profile, MilestoneHashOf, r[i].milestoneHash)
    {
      FirstWithKeyAppend(character, profile, MilestoneHashOf, r[i].milestoneHash);
    }
    r
  }

  /** The rewards of an item: `m.pursuit?.rewards ?? []`. */
  function Rewards(item: MilestoneItem): seq<int> {
    item.pursuitRewards.GetOr([])
  }

  /**
   * The `groupBy` key of an item: the power bonus of its first reward for
   * which `getEngramPowerBonus` (the parameter `bonus`, given the reward's
   * item hash, the character's max gear power and the item's hash) is
   * defined; None when no reward has one.
   */
  function PowerBonus(rewards: seq<int>, maxGearPower: Option<int>, itemHash: int,
                      bonus: (int, Option<int>, int) -> Option<int>): (p: Option<int>)
    ensures p.None? <==> forall i :: 0 <= i < |rewards| ==> bonus(rewards[i], maxGearPower, itemHash).None?
    ensures p.Some? ==> exists i :: 0 <= i < |rewards| && bonus(rewards[i], maxGearPower, itemHash) == p
                          && forall j :: 0 <= j < i ==> bonus(rewards[j], maxGearPower, itemHash).None?
  {
    if rewards == [] then None
    else if bonus(rewards[0], maxGearPower, itemHash).Some? then bonus(rewards[0], maxGearPower, itemHash)
    else
      var rest := PowerBonus(rewards[1..], maxGearPower, itemHash, bonus);
      assert forall i :: 1 <= i < |rewards| ==> rewards[i] == rewards[1..][i - 1];
      rest
  }

  function ItemBonus(maxGearPower: Option<int>, bonus: (int, Option<int>, int) -> Option<int>, item: MilestoneItem)
    : Option<int>
  {
    PowerBonus(Rewards(item), maxGearPower, item.hash, bonus)
  }

  /** The milestone items of the merged list, in order: `.flatMap(milestoneToItems)`. */
  function MilestoneItems(character: seq<Milestone>, profile: seq<Milestone>, toItems: Milestone -> seq<MilestoneItem>)
    : (r: seq<MilestoneItem>)
    ensures forall it :: it in r ==> exists m :: m in MergedMilestones(character, profile) && it in toItems(m)
    ensures forall m, it :: m in MergedMilestones(character, profile) && it in toItems(m) ==> it in r
  {
    FlatMap(MergedMilestones(character, profile), toItems)
  }

  /**
   * `milestonesByPower`: one non-empty group per power bonus (None standing
   * for `'undefined'`) that some item has, holding exactly the items with
   * that bonus, in item order.
   */
  function MilestonesByPower(items: seq<MilestoneItem>, maxGearPower: Option<int>,
                             bonus: (int, Option<int>, int) -> Option<int>): (g: map<Option<int>, seq<MilestoneItem>>)
    ensures forall it :: it in items ==>
              ItemBonus(maxGearPower, bonus, it) in g && it in g[ItemBonus(maxGearPower, bonus, it)]
    ensures forall k :: k in g ==> g[k] != []
    ensures forall k, it :: k in g && it in g[k] ==> it in items && ItemBonus(maxGearPower, bonus, it) == k
    ensures forall k, it :: k in g && it in items && ItemBonus(maxGearPower, bonus, it) == k ==> it in g[k]
    ensures forall k :: k in g ==> g[k] == WithKey(items, it => ItemBonus(maxGearPower, bonus, it), k)
  {
    GroupBy(items, it => ItemBonus(maxGearPower, bonus, it))
  }

  // ---------------------------------------------------------------------------
  // sortPowerBonus
  // ---------------------------------------------------------------------------

  /** The comparator key of a group: the negated bonus, `'undefined'` ranked as bonus -1. */
  function SortPowerBonusKey(k: Option<int>): int {
    -(if k.None? then -1 else k.value)
  }

  /** Under the comparator a key sorts first exactly when its bonus (`'undefined'` as -1) is larger. */
  lemma SortPowerBonusRank(a: Option<int>, b: Option<int>)
    ensures SortPowerBonusKey(a) < SortPowerBonusKey(b) <==> a.GetOr(-1) > b.GetOr(-1)
    ensures SortPowerBonusKey(None) == SortPowerBonusKey(Some(-1))
  {
  }

  /** The bonus of every item, in item order. */
  function BonusList(items: seq<MilestoneItem>, maxGearPower: Option<int>,
                     bonus: (int, Option<int>, int) -> Option<int>): (r: seq<Option<int>>)
    ensures |r| == |items|
    ensures forall i :: 0 <= i < |items| ==> r[i] == ItemBonus(maxGearPower, bonus, items[i])
  {
    seq(|items|, i requires 0 <= i < |items| => ItemBonus(maxGearPower, bonus, items[i]))
  }

  function SameKey(k: Option<int>): Option<int> {
    k
  }

  /** The group keys in the order `Object.keys` yields them for these groups: first appearance among the items. */
  function PowerKeys(items: seq<MilestoneItem>, maxGearPower: Option<int>,
                     bonus: (int, Option<int>, int) -> Option<int>): (ks: seq<Option<int>>)
    ensures forall i, j :: 0 <= i < j < |ks| ==> ks[i] != ks[j]
    ensures forall k :: k in ks <==> k in BonusList(items, maxGearPower, bonus)
    ensures forall i, j :: 0 <= i < j < |ks| ==>
              FirstIndex(items, it => ItemBonus(maxGearPower, bonus, it), ks[i])
              < FirstIndex(items, it => ItemBonus(maxGearPower, bonus, it), ks[j])
  {
    var bs := BonusList(items, maxGearPower, bonus);
    var ks := UniqBy(bs, SameKey);
    UniqKeys(bs, ks);
    forall i, j | 0 <= i < j < |ks|
      ensures FirstIndex(items, it => ItemBonus(maxGearPower, bonus, it), ks[i])
              < FirstIndex(items, it => ItemBonus(maxGearPower, bonus, it), ks[j])
    {
      FirstBonusIndex(items, maxGearPower, bonus, ks[i]);
      FirstBonusIndex(items, maxGearPower, bonus, ks[j]);
    }
    ks
  }

  /** `uniqBy` with the identity key: each key of `bs` once, in order of first occurrence. */
  lemma UniqKeys(bs: seq<Option<int>>, ks: seq<Option<int>>)
    requires ks == UniqBy(bs, SameKey)
    ensures forall i, j :: 0 <= i < j < |ks| ==> ks[i] != ks[j]
    ensures forall k :: k in ks <==> k in bs
    ensures forall i, j :: 0 <= i < j < |ks| ==> FirstIndex(bs, SameKey, SameKey(ks[i])) < FirstIndex(bs, SameKey, SameKey(ks[j]))
  {
    forall i, j | 0 <= i < j < |ks| ensures ks[i] != ks[j] {
      assert SameKey(ks[i]) != SameKey(ks[j]);
    }
    forall k | k in ks ensures k in bs {
      var i :| 0 <= i < |ks| && ks[i] == k;
      assert FirstWithKey(bs, SameKey, SameKey(ks[i])) == Some(ks[i]);
    }
    forall k | k in bs ensures k in ks {
      var i :| 0 <= i < |ks| && SameKey(ks[i]) == SameKey(k);
    }
  }

  /** A bonus first occurs in the bonus list where it first occurs among the items. */
  lemma FirstBonusIndex(items: seq<MilestoneItem>, maxGearPower: Option<int>,
                        bonus: (int, Option<int>, int) -> Option<int>, k: Option<int>)
    ensures FirstIndex(BonusList(items, maxGearPower, bonus), SameKey, SameKey(k))
         == FirstIndex(items, it => ItemBonus(maxGearPower, bonus, it), k)
  {
    var i := FirstIndex(items, it => ItemBonus(maxGearPower, bonus, it), k);
    FirstIndexUnique(BonusList(items, maxGearPower, bonus), SameKey, SameKey(k), i);
  }

  /**
   * `Object.keys(milestonesByPower).sort(sortPowerBonus)`: every group key
   * once, larger bonuses first, `'undefined'` after every non-negative
   * bonus; the sort is stable, so keys the comparator ties keep their
   * first-appearance order.
   */
  function OrderedPowerKeys(items: seq<MilestoneItem>, maxGearPower: Option<int>,
                            bonus: (int, Option<int>, int) -> Option<int>): (ks: seq<Option<int>>)
    ensures forall k :: k in ks <==> k in MilestonesByPower(items, maxGearPower, bonus)
    ensures forall i, j :: 0 <= i < j < |ks| ==> ks[i] != ks[j]
    ensures SortedBy(ks, SortPowerBonusKey)
    ensures forall c :: WithKey(ks, SortPowerBonusKey, c) == WithKey(PowerKeys(items, maxGearPower, bonus), SortPowerBonusKey, c)
  {
    var u := PowerKeys(items, maxGearPower, bonus);
    var ks := SortBy(u, SortPowerBonusKey);
    KeysOfGroups(items, maxGearPower, bonus);
    SortedDistinct(u, ks);
    forall c {
      SortByStable(u, SortPowerBonusKey, c);
    }
    ks
  }

  /** The first-appearance keys are exactly the group keys, each once. */
  lemma KeysOfGroups(items: seq<MilestoneItem>, maxGearPower: Option<int>,
                     bonus: (int, Option<int>, int) -> Option<int>)
    ensures forall k :: k in PowerKeys(items, maxGearPower, bonus) <==> k in MilestonesByPower(items, maxGearPower, bonus)
    ensures forall i, j :: 0 <= i < j < |PowerKeys(items, maxGearPower, bonus)| ==>
              PowerKeys(items, maxGearPower, bonus)[i] != PowerKeys(items, maxGearPower, bonus)[j]
  {
    var u := PowerKeys(items, maxGearPower, bonus);
    forall i, j | 0 <= i < j < |u| ensures u[i] != u[j] {
      assert SameKey(u[i]) != SameKey(u[j]);
    }
    KeysInGroups(items, maxGearPower, bonus);
    GroupsInKeys(items, maxGearPower, bonus);
  }

  lemma KeysInGroups(items: seq<MilestoneItem>, maxGearPower: Option<int>,
                     bonus: (int, Option<int>, int) -> Option<int>)
    ensures forall k :: k in PowerKeys(items, maxGearPower, bonus) ==> k in MilestonesByPower(items, maxGearPower, bonus)
  {
    var keys := BonusList(items, maxGearPower, bonus);
    var u := PowerKeys(items, maxGearPower, bonus);
    forall k | k in u ensures k in MilestonesByPower(items, maxGearPower, bonus) {
      var i :| 0 <= i < |u| && u[i] == k;
      assert FirstWithKey(keys, SameKey, SameKey(u[i])) == Some(u[i]);
      assert k in keys;
      var j :| 0 <= j < |keys| && keys[j] == k;
      var it := items[j];
      assert it in items;
    }
  }

  lemma GroupsInKeys(items: seq<MilestoneItem>, maxGearPower: Option<int>,
                     bonus: (int, Option<int>, int) -> Option<int>)
    ensures forall k :: k in MilestonesByPower(items, maxGearPower, bonus) ==> k in PowerKeys(items, maxGearPower, bonus)
  {
    var g := MilestonesByPower(items, maxGearPower, bonus);
    forall k | k in g ensures k in BonusList(items, maxGearPower, bonus) {
      GroupKeyIsBonus(items, maxGearPower, bonus, k);
    }
    BonusesAreKeys(BonusList(items, maxGearPower, bonus));
  }

  lemma GroupKeyIsBonus(items: seq<MilestoneItem>, maxGearPower: Option<int>,
                        bonus: (int, Option<int>, int) -> Option<int>, k: Option<int>)
    requires k in MilestonesByPower(items, maxGearPower, bonus)
    ensures k in BonusList(items, maxGearPower, bonus)
  {
    var g := MilestonesByPower(items, maxGearPower, bonus);
    var it := g[k][0];
    assert it in g[k];
    var j :| 0 <= j < |items| && items[j] == it;
    assert BonusList(items, maxGearPower, bonus)[j] == k;
  }

  lemma BonusesAreKeys(keys: seq<Option<int>>)
    ensures forall k :: k in keys ==> k in UniqBy(keys, SameKey)
  {
    var u := UniqBy(keys, SameKey);
    forall k | k in keys ensures k in u {
      var i :| 0 <= i < |u| && SameKey(u[i]) == SameKey(k);
    }
  }

  /** Sorting a list of distinct keys keeps them distinct and keeps the same members. */
  lemma SortedDistinct(u: seq<Option<int>>, ks: seq<Option<int>>)
    requires multiset(ks) == multiset(u)
    requires forall i, j :: 0 <= i < j < |u| ==> u[i] != u[j]
    ensures forall k :: k in ks <==> k in u
    ensures forall i, j :: 0 <= i < j < |ks| ==> ks[i] != ks[j]
  {
    forall k ensures k in ks <==> k in u {
      assert k in ks <==> k in multiset(ks);
      assert k in u <==> k in multiset(u);
    }
    forall k | k in u ensures multiset(u)[k] == 1 {
      var i :| 0 <= i < |u| && u[i] == k;
      MultiplicityOne(u, i);
    }
    forall i, j | 0 <= i < j < |ks| ensures ks[i] != ks[j] {
      if ks[i] == ks[j] {
        TwoCopies(ks, i, j);
        assert false;
      }
    }
  }

  lemma {:induction false} MultiplicityOne(u: seq<Option<int>>, i: nat)
    requires forall a, b :: 0 <= a < b < |u| ==> u[a] != u[b]
    requires i < |u|
    ensures multiset(u)[u[i]] == 1
  {
    assert u == u[..i] + [u[i]] + u[i + 1..];
    assert u[i] !in u[..i] && u[i] !in u[i + 1..];
    assert multiset(u) == multiset(u[..i]) + multiset{u[i]} + multiset(u[i + 1..]);
  }

  lemma TwoCopies(s: seq<Option<int>>, i: nat, j: nat)
    requires i < j < |s| && s[i] == s[j]
    ensures multiset(s)[s[i]] >= 2
  {
    assert s == s[..i] + [s[i]] + s[i + 1..j] + [s[j]] + s[j + 1..];
    assert multiset(s) == multiset(s[..i]) + multiset{s[i]} + multiset(s[i + 1..j]) + multiset{s[j]} + multiset(s[j + 1..]);
  }

  /**
   * What the key order means: of two bonuses the larger comes first, and
   * `'undefined'` comes after every non-negative bonus and before every
   * bonus below -1; between -1 and `'undefined'`, the one whose first item
   * comes first is listed first.
   */
  lemma PowerKeyOrder(items: seq<MilestoneItem>, maxGearPower: Option<int>,
                      bonus: (int, Option<int>, int) -> Option<int>, i: nat, j: nat)
    requires i < j < |OrderedPowerKeys(items, maxGearPower, bonus)|
    ensures var ks := OrderedPowerKeys(items, maxGearPower, bonus);
            (ks[i].Some? && ks[j].Some? ==> ks[i].value > ks[j].value)
            && (ks[i].None? ==> ks[j].Some? && ks[j].value <= -1)
            && (ks[j].None? ==> ks[i].Some? && ks[i].value >= -1)
            && (ks[i].GetOr(-1) == ks[j].GetOr(-1) ==>
                  FirstIndex(items, it => ItemBonus(maxGearPower, bonus, it), ks[i])
                  < FirstIndex(items, it => ItemBonus(maxGearPower, bonus, it), ks[j]))
  {
    var ks := OrderedPowerKeys(items, maxGearPower, bonus);
    KeyOrder(ks, i, j);
    if ks[i].GetOr(-1) == ks[j].GetOr(-1) {
      PowerKeyTie(items, maxGearPower, bonus, i, j);
    }
  }

  /** Keys the comparator ties stay in the order in which their first items appear. */
  lemma PowerKeyTie(items: seq<MilestoneItem>, maxGearPower: Option<int>,
                    bonus: (int, Option<int>, int) -> Option<int>, i: nat, j: nat)
    requires i < j < |OrderedPowerKeys(items, maxGearPower, bonus)|
    requires SortPowerBonusKey(OrderedPowerKeys(items, maxGearPower, bonus)[i])
          == SortPowerBonusKey(OrderedPowerKeys(items, maxGearPower, bonus)[j])
    ensures FirstIndex(items, it => ItemBonus(maxGearPower, bonus, it), OrderedPowerKeys(items, maxGearPower, bonus)[i])
          < FirstIndex(items, it => ItemBonus(maxGearPower, bonus, it), OrderedPowerKeys(items, maxGearPower, bonus)[j])
  {
    var ks := OrderedPowerKeys(items, maxGearPower, bonus);
    var u := PowerKeys(items, maxGearPower, bonus);
    var c := SortPowerBonusKey(ks[i]);
    WithKeyKeepsBefore(ks, SortPowerBonusKey, c, i, j);
    assert WithKey(ks, SortPowerBonusKey, c) == WithKey(u, SortPowerBonusKey, c);
    WithKeyBeforeReflects(u, SortPowerBonusKey, c, ks[i], ks[j]);
    var a, b :| 0 <= a < b < |u| && u[a] == ks[i] && u[b] == ks[j];
  }

  /** `PowerKeyOrder` for any list of distinct keys sorted by the comparator. */
  lemma KeyOrder(ks: seq<Option<int>>, i: nat, j: nat)
    requires i < j < |ks|
    requires ks[i] != ks[j]
    requires SortedBy(ks, SortPowerBonusKey)
    ensures (ks[i].Some? && ks[j].Some? ==> ks[i].value > ks[j].value)
            && (ks[i].None? ==> ks[j].Some? && ks[j].value <= -1)
            && (ks[j].None? ==> ks[i].Some? && ks[i].value >= -1)
  {
    assert SortPowerBonusKey(ks[i]) <= SortPowerBonusKey(ks[j]);
  }

  /** Every item's bonus is one of the ordered keys. */
  lemma BonusesInOrderedKeys(items: seq<MilestoneItem>, maxGearPower: Option<int>,
                             bonus: (int, Option<int>, int) -> Option<int>)
    ensures forall it :: it in items ==> ItemBonus(maxGearPower, bonus, it) in OrderedPowerKeys(items, maxGearPower, bonus)
  {
    var ks := OrderedPowerKeys(items, maxGearPower, bonus);
    var g := MilestonesByPower(items, maxGearPower, bonus);
    forall it | it in items ensures ItemBonus(maxGearPower, bonus, it) in ks {
      assert ItemBonus(maxGearPower, bonus, it) in g;
    }
  }

  /**
   * The rendered sections: each ordered key with its group, so every item
   * appears in exactly one section, the one of its own bonus.
   */
  function PowerSections(items: seq<MilestoneItem>, maxGearPower: Option<int>,
                         bonus: (int, Option<int>, int) -> Option<int>): (r: seq<(Option<int>, seq<MilestoneItem>)>)
    ensures |r| == |OrderedPowerKeys(items, maxGearPower, bonus)|
    ensures forall i :: 0 <= i < |r| ==> r[i].0 == OrderedPowerKeys(items, maxGearPower, bonus)[i] && r[i].1 != []
    ensures forall it :: it in items ==>
              exists i :: 0 <= i < |r| && r[i].0 == ItemBonus(maxGearPower, bonus, it) && it in r[i].1
    ensures forall i, it :: 0 <= i < |r| && it in r[i].1 ==> it in items && ItemBonus(maxGearPower, bonus, it) == r[i].0
    ensures forall i :: 0 <= i < |r| ==> r[i].1 == MilestonesByPower(items, maxGearPower, bonus)[r[i].0]
  {
    var ks := OrderedPowerKeys(items, maxGearPower, bonus);
    var g := MilestonesByPower(items, maxGearPower, bonus);
    var r := seq(|ks|, i requires 0 <= i < |ks| => (ks[i], g[ks[i]]));
    BonusesInOrderedKeys(items, maxGearPower, bonus);
    SectionsCover(items, maxGearPower, bonus, ks, g, r);
    SectionsSound(items, maxGearPower, bonus, ks, g, r);
    r
  }

  lemma SectionsSound(items: seq<MilestoneItem>, maxGearPower: Option<int>, bonus: (int, Option<int>, int) -> Option<int>,
                      ks: seq<Option<int>>, g: map<Option<int>, seq<MilestoneItem>>, r: seq<(Option<int>, seq<MilestoneItem>)>)
    requires forall k :: k in ks ==> k in g && g[k] != []
    requires forall k, it :: k in g && it in g[k] ==> it in items && ItemBonus(maxGearPower, bonus, it) == k
    requires |r| == |ks| && forall i :: 0 <= i < |r| ==> r[i] == (ks[i], g[ks[i]])
    ensures forall i :: 0 <= i < |r| ==> r[i].1 != []
    ensures forall i, it :: 0 <= i < |r| && it in r[i].1 ==> it in items && ItemBonus(maxGearPower, bonus, it) == r[i].0
  {
    forall i | 0 <= i < |r| ensures ks[i] in g {
      assert ks[i] in ks;
    }
  }

  lemma SectionsCover(items: seq<MilestoneItem>, maxGearPower: Option<int>, bonus: (int, Option<int>, int) -> Option<int>,
                      ks: seq<Option<int>>, g: map<Option<int>, seq<MilestoneItem>>, r: seq<(Option<int>, seq<MilestoneItem>)>)
    requires forall it :: it in items ==>
               ItemBonus(maxGearPower, bonus, it) in ks && ItemBonus(maxGearPower, bonus, it) in g
               && it in g[ItemBonus(maxGearPower, bonus, it)]
    requires |r| == |ks| && forall i :: 0 <= i < |r| ==> ks[i] in g && r[i] == (ks[i], g[ks[i]])
    ensures forall it :: it in items ==>
              exists i :: 0 <= i < |r| && r[i].0 == ItemBonus(maxGearPower, bonus, it) && it in r[i].1
  {
    forall it | it in items
      ensures exists i :: 0 <= i < |r| && r[i].0 == ItemBonus(maxGearPower, bonus, it) && it in r[i].1
    {
      var k := ItemBonus(maxGearPower, bonus, it);
      var i :| 0 <= i < |ks| && ks[i] == k;
      assert r[i].0 == k;
    }
  }
}
