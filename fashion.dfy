/**
 * The fashion editor of a loadout: a map from armour bucket hash to the
 * plug (shader or ornament) hashes chosen for that bucket, and the button
 * handlers that rewrite it. Manifest lookups are parameters: `isShader`
 * (the plug category of a hash is the shader category), `groupOf` (an
 * ornament's collectible parent presentation node, None when unresolved),
 * `setOf` (the per-bucket ornaments of a presentation node) and the set of
 * unlocked plugs.
 */
module Fashion {
  import opened Seqs

  /** Bucket hash -> the plug hashes chosen for that bucket, in insertion order. */
  type ModsByBucket = map<int, seq<int>>

  /** Helmet, gauntlets, chest, legs and class item, in display order. */
  const LockableBucketHashes: seq<int> := [3448274439, 3551918588, 14239492, 20886954, 1585787867]

  /** The "default shader" plug shown in an empty shader socket. */
  const DefaultShader: int := 4248210736

  predicate LockableDistinct() {
    forall i, j :: 0 <= i < j < |LockableBucketHashes| ==> LockableBucketHashes[i] != LockableBucketHashes[j]
  }

  lemma LockableIsDistinct()
    ensures LockableDistinct()
  {
    var l := LockableBucketHashes;
    assert l[0] == 3448274439 && l[1] == 3551918588 && l[2] == 14239492 && l[3] == 20886954 && l[4] == 1585787867;
  }

  /** `modsByBucket[bucket] ?? []` */
  function BucketMods(m: ModsByBucket, bucket: int): seq<int> {
    if bucket in m then m[bucket] else []
  }

  // ---------------------------------------------------------------------------
  // Shader / ornament classification
  // ---------------------------------------------------------------------------

  /** The entries of `s` whose classification is `shader` (true: shaders, false: ornaments), in order. */
  function Keep(s: seq<int>, isShader: int -> bool, shader: bool): (r: seq<int>)
    ensures |r| <= |s|
    ensures forall x :: x in r <==> x in s && isShader(x) == shader
  {
    if s == [] then [] else (if isShader(s[0]) == shader then [s[0]] else []) + Keep(s[1..], isShader, shader)
  }

  /** `Keep` is the `filter` of the source with the predicate `isShader(x) === shader`. */
  lemma {:induction false} KeepIsFilter(s: seq<int>, isShader: int -> bool, shader: bool)
    ensures Keep(s, isShader, shader) == Filter(s, x => isShader(x) == shader)
  {
    if s != [] {
      KeepIsFilter(s[1..], isShader, shader);
    }
  }

  lemma {:induction false} KeepAppend(a: seq<int>, b: seq<int>, isShader: int -> bool, shader: bool)
    ensures Keep(a + b, isShader, shader) == Keep(a, isShader, shader) + Keep(b, isShader, shader)
  {
    if a == [] {
      assert a + b == b;
    } else {
      var head := if isShader(a[0]) == shader then [a[0]] else [];
      assert (a + b)[0] == a[0];
      assert (a + b)[1..] == a[1..] + b;
      KeepAppend(a[1..], b, isShader, shader);
      calc {
        Keep(a + b, isShader, shader);
        head + Keep(a[1..] + b, isShader, shader);
        head + (Keep(a[1..], isShader, shader) + Keep(b, isShader, shader));
        (head + Keep(a[1..], isShader, shader)) + Keep(b, isShader, shader);
        Keep(a, isShader, shader) + Keep(b, isShader, shader);
      }
    }
  }

  /** Filtering twice by the same classification is filtering once. */
  lemma {:induction false} KeepIdempotent(s: seq<int>, isShader: int -> bool, shader: bool)
    ensures Keep(Keep(s, isShader, shader), isShader, shader) == Keep(s, isShader, shader)
  {
    if s != [] {
      var head := if isShader(s[0]) == shader then [s[0]] else [];
      KeepIdempotent(s[1..], isShader, shader);
      KeepAppend(head, Keep(s[1..], isShader, shader), isShader, shader);
    }
  }

  /** The two classifications split a list into two parts that make it up exactly. */
  lemma {:induction false} KeepPartition(s: seq<int>, isShader: int -> bool)
    ensures |Keep(s, isShader, true)| + |Keep(s, isShader, false)| == |s|
    ensures multiset(Keep(s, isShader, true)) + multiset(Keep(s, isShader, false)) == multiset(s)
  {
    if s != [] {
      KeepPartition(s[1..], isShader);
      assert s == [s[0]] + s[1..];
    }
  }

  /** Keeping a classification does not change how often an entry of that classification occurs. */
  lemma {:induction false} CountKeep(s: seq<int>, isShader: int -> bool, shader: bool)
    ensures forall h :: isShader(h) == shader ==> Count(Keep(s, isShader, shader), h) == Count(s, h)
  {
    if s != [] {
      CountKeep(s[1..], isShader, shader);
      var head := if isShader(s[0]) == shader then [s[0]] else [];
      forall h | isShader(h) == shader
        ensures Count(Keep(s, isShader, shader), h) == Count(s, h)
      {
        CountAppend(head, Keep(s[1..], isShader, shader), h);
      }
    }
  }

  /**
   * `Object.values(modsByBucket).flat()`: every bucket's list, concatenated
   * in ascending bucket-hash order (the enumeration order of integer keys).
   */
  function ModHashes(m: ModsByBucket): (r: seq<int>)
    ensures forall b, x :: b in m && x in m[b] ==> x in r
    ensures forall x :: x in r ==> exists b :: b in m && x in m[b]
  {
    var vs := Values(m);
    assert forall x :: x in Flatten(vs) ==> exists b :: b in m && x in m[b] by {
      forall x | x in Flatten(vs) ensures exists b :: b in m && x in m[b] {
        var i :| 0 <= i < |vs| && x in vs[i];
        assert vs[i] in vs;
      }
    }
    assert forall b, x :: b in m && x in m[b] ==> x in Flatten(vs) by {
      forall b, x | b in m && x in m[b] ensures x in Flatten(vs) {
        var i :| 0 <= i < |vs| && vs[i] == m[b];
      }
    }
    Flatten(vs)
  }

  /** The flattening starts with the list of the least bucket hash. */
  lemma ModHashesUnfold(m: ModsByBucket)
    requires m != map[]
    ensures m.Keys != {}
    ensures ModHashes(m) == m[MinKey(m.Keys)] + ModHashes(m - {MinKey(m.Keys)})
  {
    ValuesUnfold(m);
    var vs := Values(m);
    assert vs[0] == m[MinKey(m.Keys)] && vs[1..] == Values(m - {MinKey(m.Keys)});
  }

  /**
   * Whatever the enumeration order, the flattened list holds each bucket's
   * entries exactly as often as the bucket does: taking any one bucket out
   * removes exactly its entries.
   */
  lemma {:induction false} ModHashesRemove(m: ModsByBucket, b: int)
    requires b in m
    ensures multiset(ModHashes(m)) == multiset(m[b]) + multiset(ModHashes(m - {b}))
    decreases |m|
  {
    ModHashesUnfold(m);
    var k := MinKey(m.Keys);
    if b != k {
      var m' := m - {k};
      assert |m'| < |m| by {
        assert m'.Keys == m.Keys - {k};
      }
      ModHashesRemove(m', b);
      MinKeyRemove(m.Keys, b);
      ModHashesRemoveStep(m, b, k);
    }
  }

  /** One step of `ModHashesRemove`: the least bucket `k` comes first with or without `b`. */
  lemma ModHashesRemoveStep(m: ModsByBucket, b: int, k: int)
    requires b in m && k in m && b != k
    requires (m - {b}).Keys != {} && MinKey((m - {b}).Keys) == k
    requires ModHashes(m) == m[k] + ModHashes(m - {k})
    requires multiset(ModHashes(m - {k})) == multiset(m[b]) + multiset(ModHashes(m - {k} - {b}))
    ensures multiset(ModHashes(m)) == multiset(m[b]) + multiset(ModHashes(m - {b}))
  {
    var mb := m - {b};
    ModHashesUnfold(mb);
    RemoveTwo(m, b, k);
    MoveToFront(m[k], m[b], ModHashes(m - {k}), ModHashes(m - {k} - {b}));
  }

  /** Removing two keys in either order leaves the same map; the other key keeps its value. */
  lemma RemoveTwo(m: ModsByBucket, b: int, k: int)
    requires b in m && k in m && b != k
    ensures (m - {b})[k] == m[k]
    ensures m - {b} - {k} == m - {k} - {b}
  {
  }

  /** Multiset algebra behind `ModHashesRemoveStep`. */
  lemma MoveToFront(first: seq<int>, moved: seq<int>, tail: seq<int>, rest: seq<int>)
    requires multiset(tail) == multiset(moved) + multiset(rest)
    ensures multiset(first + tail) == multiset(moved) + multiset(first + rest)
  {
  }

  /** The `shaders` list of the editor. */
  function Shaders(m: ModsByBucket, isShader: int -> bool): (r: seq<int>)
    ensures forall x :: x in r <==> isShader(x) && exists b :: b in m && x in m[b]
    ensures forall h :: isShader(h) ==> Count(r, h) == Count(ModHashes(m), h)
  {
    CountKeep(ModHashes(m), isShader, true);
    Keep(ModHashes(m), isShader, true)
  }

  /** The `ornaments` list of the editor: every entry that is not a shader. */
  function Ornaments(m: ModsByBucket, isShader: int -> bool): (r: seq<int>)
    ensures forall x :: x in r <==> !isShader(x) && exists b :: b in m && x in m[b]
    ensures forall h :: !isShader(h) ==> Count(r, h) == Count(ModHashes(m), h)
  {
    CountKeep(ModHashes(m), isShader, false);
    Keep(ModHashes(m), isShader, false)
  }

  /** `shaders` and `ornaments` partition the flattened mod list. */
  lemma ShadersOrnamentsPartition(m: ModsByBucket, isShader: int -> bool)
    ensures |Shaders(m, isShader)| + |Ornaments(m, isShader)| == |ModHashes(m)|
    ensures multiset(Shaders(m, isShader)) + multiset(Ornaments(m, isShader)) == multiset(ModHashes(m))
  {
    KeepPartition(ModHashes(m), isShader);
  }

  // ---------------------------------------------------------------------------
  // handlePlugSelected
  // ---------------------------------------------------------------------------

  /** The entries of `s` that are not among a socket's plugs, in order. */
  function Without(s: seq<int>, plugSet: seq<int>): (r: seq<int>)
    ensures |r| <= |s|
    ensures forall x :: x in r <==> x in s && x !in plugSet
  {
    if s == [] then [] else (if s[0] in plugSet then [] else [s[0]]) + Without(s[1..], plugSet)
  }

  /** `Without` is the `filter` of the source with the predicate `!plugSet.includes(x)`. */
  lemma {:induction false} WithoutIsFilter(s: seq<int>, plugSet: seq<int>)
    ensures Without(s, plugSet) == Filter(s, x => x !in plugSet)
  {
    if s != [] {
      WithoutIsFilter(s[1..], plugSet);
    }
  }

  lemma {:induction false} WithoutAppend(a: seq<int>, b: seq<int>, plugSet: seq<int>)
    ensures Without(a + b, plugSet) == Without(a, plugSet) + Without(b, plugSet)
  {
    if a == [] {
      assert a + b == b;
    } else {
      var head := if a[0] in plugSet then [] else [a[0]];
      assert (a + b)[0] == a[0];
      assert (a + b)[1..] == a[1..] + b;
      WithoutAppend(a[1..], b, plugSet);
      assert Without(a + b, plugSet) == head + (Without(a[1..], plugSet) + Without(b, plugSet));
    }
  }

  lemma {:induction false} WithoutIdempotent(s: seq<int>, plugSet: seq<int>)
    ensures Without(Without(s, plugSet), plugSet) == Without(s, plugSet)
  {
    if s != [] {
      var head := if s[0] in plugSet then [] else [s[0]];
      WithoutIdempotent(s[1..], plugSet);
      WithoutAppend(head, Without(s[1..], plugSet), plugSet);
    }
  }

  /**
   * Putting `plugHash` into a socket of `bucket` whose possible plugs are
   * `plugSet`: the bucket (absent meaning empty) loses its entries for that
   * socket and gains `plugHash` at the end; every other bucket is unchanged.
   */
  function SelectPlug(m: ModsByBucket, bucket: int, plugSet: seq<int>, plugHash: int): (r: ModsByBucket)
    ensures r.Keys == m.Keys + {bucket}
    ensures forall b :: b in m && b != bucket ==> r[b] == m[b]
    ensures |r[bucket]| > 0 && r[bucket][|r[bucket]| - 1] == plugHash
    ensures r[bucket][..|r[bucket]| - 1] == Without(BucketMods(m, bucket), plugSet)
    ensures forall x :: x in r[bucket] && x in plugSet ==> x == plugHash
    ensures Without(r[bucket], plugSet)
         == Without(BucketMods(m, bucket), plugSet) + (if plugHash in plugSet then [] else [plugHash])
  {
    var kept := Without(BucketMods(m, bucket), plugSet);
    WithoutAppend(kept, [plugHash], plugSet);
    WithoutIdempotent(BucketMods(m, bucket), plugSet);
    m[bucket := kept + [plugHash]]
  }

  /** Selecting the same plug of a socket twice is selecting it once. */
  lemma SelectPlugIdempotent(m: ModsByBucket, bucket: int, plugSet: seq<int>, plugHash: int)
    requires plugHash in plugSet
    ensures SelectPlug(SelectPlug(m, bucket, plugSet, plugHash), bucket, plugSet, plugHash)
         == SelectPlug(m, bucket, plugSet, plugHash)
  {
    var kept := Without(BucketMods(m, bucket), plugSet);
    var once := m[bucket := kept + [plugHash]];
    assert SelectPlug(m, bucket, plugSet, plugHash) == once;
    ReselectKeeps(BucketMods(m, bucket), plugSet, plugHash);
    assert BucketMods(once, bucket) == kept + [plugHash];
  }

  /** Re-clearing a socket after its plug was appended leaves what the first clearing left. */
  lemma ReselectKeeps(s: seq<int>, plugSet: seq<int>, plugHash: int)
    requires plugHash in plugSet
    ensures Without(Without(s, plugSet) + [plugHash], plugSet) == Without(s, plugSet)
  {
    WithoutAppend(Without(s, plugSet), [plugHash], plugSet);
    WithoutIdempotent(s, plugSet);
  }

  // ---------------------------------------------------------------------------
  // handleUseEquipped and the class-type fallback
  // ---------------------------------------------------------------------------

  datatype DestinyClass = Titan | Hunter | Warlock | Unknown

  /**
   * One cosmetic socket of an item: its index, the plug in it, the plugs it
   * can take (an absent plug set is empty), whether its socket type
   * whitelists the shader category, and its default plug.
   */
  datatype Socket = Socket(socketIndex: int, plugged: Option<int>, plugSet: seq<int>,
                           acceptsShader: bool, defaultPlug: Option<int>)

  /** An entry of the loadout's item list. */
  datatype LoadoutItem = LoadoutItem(id: string, equipped: bool)

  /** An inventory item; `cosmeticSockets` is None when the item has no sockets. */
  datatype Item = Item(id: string, bucket: int, classType: DestinyClass, cosmeticSockets: Option<seq<Socket>>)

  /** `equippedIds`: the ids of the loadout entries marked equipped. */
  function EquippedIds(entries: seq<LoadoutItem>): (ids: set<string>)
    ensures forall i :: 0 <= i < |entries| && entries[i].equipped ==> entries[i].id in ids
    ensures forall id :: id in ids ==> exists i :: 0 <= i < |entries| && entries[i].equipped && entries[i].id == id
  {
    var ids := set e | e in entries && e.equipped :: e.id;
    assert forall id :: id in ids ==> exists i :: 0 <= i < |entries| && entries[i].equipped && entries[i].id == id by {
      forall id | id in ids ensures exists i :: 0 <= i < |entries| && entries[i].equipped && entries[i].id == id {
        var e :| e in entries && e.equipped && e.id == id;
        var i :| 0 <= i < |entries| && entries[i] == e;
      }
    }
    ids
  }

  predicate IsEquippedArmor(ids: set<string>, item: Item) {
    item.id in ids && item.bucket in LockableBucketHashes
  }

  /** `armor`: the resolved items that are equipped in the loadout and sit in a lockable bucket. */
  function Armor(entries: seq<LoadoutItem>, items: seq<Item>): (r: seq<Item>)
    ensures |r| <= |items|
    ensures forall i :: i in r ==>
              (i in items && i.bucket in LockableBucketHashes && exists e :: e in entries && e.equipped && e.id == i.id)
    ensures forall i ::
              (i in items && i.bucket in LockableBucketHashes && exists e :: e in entries && e.equipped && e.id == i.id)
              ==> i in r
  {
    Filter(items, (i: Item) => IsEquippedArmor(EquippedIds(entries), i))
  }

  /** `_.keyBy(armor, i => i.bucket.hash)`: the last item of each bucket. */
  function KeyByBucket(armor: seq<Item>): (r: map<int, Item>)
    ensures r.Keys == set i | i in armor :: i.bucket
    ensures forall b :: b in r ==> r[b] in armor && r[b].bucket == b
  {
    if armor == [] then map[]
    else
      var init := armor[..|armor| - 1];
      var last := armor[|armor| - 1];
      assert armor == init + [last];
      KeyByBucket(init)[last.bucket := last]
  }

  /** The item kept for a bucket is the last item of that bucket. */
  lemma {:induction false} KeyByBucketLast(armor: seq<Item>, i: nat)
    requires i < |armor|
    requires forall j :: i < j < |armor| ==> armor[j].bucket != armor[i].bucket
    ensures KeyByBucket(armor)[armor[i].bucket] == armor[i]
  {
    var init := armor[..|armor| - 1];
    if i < |armor| - 1 {
      assert init[i] == armor[i];
      assert forall j :: i < j < |init| ==> init[j] == armor[j];
      KeyByBucketLast(init, i);
    }
  }

  /** `_.compact(sockets.map(s => s.plugged?.plugDef.hash))`: the plugged hashes, without missing or zero ones. */
  function PluggedCosmetics(sockets: seq<Socket>): (r: seq<int>)
    ensures |r| <= |sockets|
    ensures forall h :: h in r ==> h != 0 && exists i :: 0 <= i < |sockets| && sockets[i].plugged == Some(h)
    ensures forall i :: 0 <= i < |sockets| && sockets[i].plugged.Some? && sockets[i].plugged.value != 0
              ==> sockets[i].plugged.value in r
  {
    if sockets == [] then []
    else
      var rest := PluggedCosmetics(sockets[1..]);
      assert forall h :: h in rest ==> exists i :: 0 <= i < |sockets| && sockets[i].plugged == Some(h) by {
        forall h | h in rest ensures exists i :: 0 <= i < |sockets| && sockets[i].plugged == Some(h) {
          var i :| 0 <= i < |sockets[1..]| && sockets[1..][i].plugged == Some(h);
          assert sockets[i + 1].plugged == Some(h);
        }
      }
      assert forall i :: 1 <= i < |sockets| ==> sockets[i] == sockets[1..][i - 1];
      match sockets[0].plugged
      case Some(h) => if h != 0 then [h] + rest else rest
      case None => rest
  }

  /** `compact(map(...))` distributes over concatenation: order and repeats are kept. */
  lemma {:induction false} PluggedCosmeticsAppend(a: seq<Socket>, b: seq<Socket>)
    ensures PluggedCosmetics(a + b) == PluggedCosmetics(a) + PluggedCosmetics(b)
  {
    if a == [] {
      assert a + b == b;
    } else {
      assert (a + b)[0] == a[0];
      assert (a + b)[1..] == a[1..] + b;
      PluggedCosmeticsAppend(a[1..], b);
    }
  }

  function CosmeticSocketsOf(item: Item): seq<Socket> {
    item.cosmeticSockets.GetOr([])
  }

  /**
   * handleUseEquipped: one entry per lockable bucket that holds an equipped
   * armour piece of the loadout, listing the cosmetics plugged into the last
   * such piece.
   */
  function EquippedMods(entries: seq<LoadoutItem>, items: seq<Item>): (r: ModsByBucket)
    ensures r.Keys == set i | i in items && IsEquippedArmor(EquippedIds(entries), i) :: i.bucket
    ensures forall b :: b in r ==> b in LockableBucketHashes
    ensures forall b :: b in r ==>
              exists i :: (i in items && IsEquippedArmor(EquippedIds(entries), i)
                           && i.bucket == b && r[b] == PluggedCosmetics(CosmeticSocketsOf(i)))
    ensures forall b, h :: b in r && h in r[b] ==> h != 0
  {
    var armor := Armor(entries, items);
    var byBucket := KeyByBucket(armor);
    map b | b in byBucket :: PluggedCosmetics(CosmeticSocketsOf(byBucket[b]))
  }

  /** Each bucket gets the cosmetics of the last equipped armour piece in it. */
  lemma EquippedModsLast(entries: seq<LoadoutItem>, items: seq<Item>, i: nat)
    requires i < |Armor(entries, items)|
    requires forall j :: i < j < |Armor(entries, items)| ==> Armor(entries, items)[j].bucket != Armor(entries, items)[i].bucket
    ensures Armor(entries, items)[i].bucket in EquippedMods(entries, items)
    ensures EquippedMods(entries, items)[Armor(entries, items)[i].bucket]
         == PluggedCosmetics(CosmeticSocketsOf(Armor(entries, items)[i]))
  {
    var armor := Armor(entries, items);
    KeyByBucketLast(armor, i);
    assert armor[i] in armor;
  }

  /**
   * The class whose items the editor shows: the loadout's own class, else
   * the class of the first equipped armour piece, else Unknown.
   */
  function ClassType(loadoutClass: DestinyClass, entries: seq<LoadoutItem>, items: seq<Item>): (c: DestinyClass)
    ensures loadoutClass != Unknown ==> c == loadoutClass
    ensures (loadoutClass == Unknown && forall i :: i in items ==> !IsEquippedArmor(EquippedIds(entries), i))
              ==> c == Unknown
    ensures (loadoutClass == Unknown && exists i :: i in items && IsEquippedArmor(EquippedIds(entries), i))
              ==> exists k :: (0 <= k < |items| && IsEquippedArmor(EquippedIds(entries), items[k])
                               && c == items[k].classType
                               && forall j :: 0 <= j < k ==> !IsEquippedArmor(EquippedIds(entries), items[j]))
  {
    var armor := Armor(entries, items);
    if loadoutClass != Unknown then loadoutClass
    else if |armor| > 0 then
      FilterHead(items, (i: Item) => IsEquippedArmor(EquippedIds(entries), i));
      armor[0].classType
    else Unknown
  }

  // ---------------------------------------------------------------------------
  // handleSyncShader
  // ---------------------------------------------------------------------------

  /**
   * The most common shader across all buckets, or None when there is no
   * shader at all.
   */
  function ShaderWinner(m: ModsByBucket, isShader: int -> bool): (w: Option<int>)
    ensures w.None? <==> forall b, x :: b in m && x in m[b] ==> !isShader(x)
    ensures w.Some? ==> isShader(w.value) && exists b :: b in m && w.value in m[b]
    ensures w.Some? ==> forall h :: isShader(h) ==> Count(ModHashes(m), h) <= Count(ModHashes(m), w.value)
  {
    var all := ModHashes(m);
    var shaders := Shaders(m, isShader);
    var w := MostCommon(shaders);
    if w.None? then
      assert forall b, x :: b in m && x in m[b] ==> !isShader(x) by {
        forall b, x | b in m && x in m[b] ensures !isShader(x) {
          assert x in all;
        }
      }
      w
    else
      var x := w.value;
      assert x in shaders && x in all && isShader(x);
      var b :| b in m && x in m[b];
      ShaderWinnerMost(all, isShader, x);
      w
  }

  lemma ShaderWinnerMost(all: seq<int>, isShader: int -> bool, w: int)
    requires MostCommon(Keep(all, isShader, true)) == Some(w)
    ensures forall h :: isShader(h) ==> Count(all, h) <= Count(all, w)
  {
    var shaders := Keep(all, isShader, true);
    CountKeep(all, isShader, true);
    forall h | isShader(h) ensures Count(all, h) <= Count(all, w) {
      if h !in shaders {
        assert Count(shaders, h) == 0;
      }
    }
  }

  /** Every lockable bucket becomes its non-shader entries followed by `winner`; other buckets go. */
  function ApplyShader(m: ModsByBucket, isShader: int -> bool, winner: int): (r: ModsByBucket)
    ensures forall b :: b in r <==> b in LockableBucketHashes
    ensures forall b :: b in LockableBucketHashes ==> r[b] == Keep(BucketMods(m, b), isShader, false) + [winner]
  {
    var l := LockableBucketHashes;
    var es := seq(|l|, i requires 0 <= i < |l| => (l[i], Some(Keep(BucketMods(m, l[i]), isShader, false) + [winner])));
    LockableIsDistinct();
    var r := FromEntries(es);
    assert forall b :: b in r ==> b in l by {
      forall b | b in r ensures b in l {
        var i :| 0 <= i < |es| && es[i].0 == b;
      }
    }
    assert forall b :: b in l ==> b in r && r[b] == Keep(BucketMods(m, b), isShader, false) + [winner] by {
      forall b | b in l ensures b in r && r[b] == Keep(BucketMods(m, b), isShader, false) + [winner] {
        var i :| 0 <= i < |l| && l[i] == b;
        FromEntriesDistinct(es, i);
      }
    }
    r
  }

  /**
   * handleSyncShader: with no shader anywhere nothing changes; otherwise the
   * map holds exactly the lockable buckets, each with its old non-shader
   * entries in order followed by the most common shader.
   */
  function SyncShaders(m: ModsByBucket, isShader: int -> bool): (r: ModsByBucket)
    ensures ShaderWinner(m, isShader).None? ==> r == m
    ensures ShaderWinner(m, isShader).Some? ==>
      (forall b :: b in r <==> b in LockableBucketHashes)
      && forall b :: b in LockableBucketHashes ==>
           r[b] == Keep(BucketMods(m, b), isShader, false) + [ShaderWinner(m, isShader).value]
  {
    match ShaderWinner(m, isShader)
    case None => m
    case Some(w) => ApplyShader(m, isShader, w)
  }

  lemma KeepOfOthersAndShader(others: seq<int>, isShader: int -> bool, w: int)
    requires isShader(w)
    requires forall x :: x in others ==> !isShader(x)
    ensures Keep(others + [w], isShader, true) == [w]
    ensures Keep(others + [w], isShader, false) == others
  {
    KeepAppend(others, [w], isShader, true);
    KeepAppend(others, [w], isShader, false);
    KeepNoneOf(others, isShader, true);
    KeepAllOf(others, isShader, false);
  }

  lemma {:induction false} KeepNoneOf(s: seq<int>, isShader: int -> bool, shader: bool)
    requires forall x :: x in s ==> isShader(x) != shader
    ensures Keep(s, isShader, shader) == []
  {
    if s != [] {
      var head := s[0];
      assert head in s;
      KeepNoneOf(s[1..], isShader, shader);
    }
  }

  lemma {:induction false} KeepAllOf(s: seq<int>, isShader: int -> bool, shader: bool)
    requires forall x :: x in s ==> isShader(x) == shader
    ensures Keep(s, isShader, shader) == s
  {
    if s != [] {
      var head := s[0];
      assert head in s;
      assert forall x :: x in s[1..] ==> x in s;
      KeepAllOf(s[1..], isShader, shader);
      assert Keep(s, isShader, shader) == [head] + s[1..];
      assert s == [head] + s[1..];
    }
  }

  /** After a shader sync every lockable bucket holds exactly one shader: the winner. */
  lemma SyncShadersOneShader(m: ModsByBucket, isShader: int -> bool)
    requires ShaderWinner(m, isShader).Some?
    ensures forall b :: b in LockableBucketHashes ==>
      Keep(SyncShaders(m, isShader)[b], isShader, true) == [ShaderWinner(m, isShader).value]
  {
    var w := ShaderWinner(m, isShader).value;
    forall b | b in LockableBucketHashes
      ensures Keep(SyncShaders(m, isShader)[b], isShader, true) == [w]
    {
      KeepOfOthersAndShader(Keep(BucketMods(m, b), isShader, false), isShader, w);
    }
  }

  /** A synced map has the winner as its only shader, so the winner wins again. */
  lemma SyncedWinnerStays(m: ModsByBucket, isShader: int -> bool, w: int)
    requires isShader(w)
    ensures ShaderWinner(ApplyShader(m, isShader, w), isShader) == Some(w)
  {
    var r := ApplyShader(m, isShader, w);
    OnlyShaderIsWinner(m, isShader, w);
    var l := LockableBucketHashes;
    assert l[0] in r && w in r[l[0]];
    var shaders := Shaders(r, isShader);
    assert w in shaders;
    assert forall x :: x in shaders ==> x == w;
    var winner := MostCommon(shaders);
    assert winner.Some? && winner.value in shaders;
  }

  /** In a map synced to `w`, `w` is the only shader. */
  lemma OnlyShaderIsWinner(m: ModsByBucket, isShader: int -> bool, w: int)
    ensures forall b, x :: b in ApplyShader(m, isShader, w) && x in ApplyShader(m, isShader, w)[b] && isShader(x) ==> x == w
  {
    var r := ApplyShader(m, isShader, w);
    forall b, x | b in r && x in r[b] && isShader(x) ensures x == w {
      assert x in Keep(BucketMods(m, b), isShader, false) + [w];
    }
  }

  /** Syncing shaders twice is syncing them once. */
  lemma SyncShadersIdempotent(m: ModsByBucket, isShader: int -> bool)
    ensures SyncShaders(SyncShaders(m, isShader), isShader) == SyncShaders(m, isShader)
  {
    if ShaderWinner(m, isShader).Some? {
      var w := ShaderWinner(m, isShader).value;
      SyncedWinnerStays(m, isShader, w);
      ApplyShaderTwice(m, isShader, w);
    }
  }

  lemma ApplyShaderTwice(m: ModsByBucket, isShader: int -> bool, w: int)
    requires isShader(w)
    ensures ApplyShader(ApplyShader(m, isShader, w), isShader, w) == ApplyShader(m, isShader, w)
  {
    var r := ApplyShader(m, isShader, w);
    var r2 := ApplyShader(r, isShader, w);
    forall b | b in LockableBucketHashes ensures r2[b] == r[b] {
      KeepOfOthersAndShader(Keep(BucketMods(m, b), isShader, false), isShader, w);
    }
    assert r2.Keys == r.Keys;
  }

  // ---------------------------------------------------------------------------
  // handleSyncOrnament
  // ---------------------------------------------------------------------------

  /** The resolved collectible groups of `xs`, in order; unresolved entries are dropped. */
  function GroupIds(xs: seq<int>, groupOf: int -> Option<int>): (r: seq<int>)
    ensures forall g :: g in r <==> exists i :: 0 <= i < |xs| && groupOf(xs[i]) == Some(g)
  {
    if xs == [] then []
    else
      var rest := GroupIds(xs[1..], groupOf);
      assert forall i :: 1 <= i < |xs| ==> xs[i] == xs[1..][i - 1];
      assert forall g :: (exists i :: 0 <= i < |xs[1..]| && groupOf(xs[1..][i]) == Some(g))
                     ==> exists i :: 0 <= i < |xs| && groupOf(xs[i]) == Some(g) by {
        forall g | exists i :: 0 <= i < |xs[1..]| && groupOf(xs[1..][i]) == Some(g)
          ensures exists i :: 0 <= i < |xs| && groupOf(xs[i]) == Some(g)
        {
          var i :| 0 <= i < |xs[1..]| && groupOf(xs[1..][i]) == Some(g);
          assert groupOf(xs[i + 1]) == Some(g);
        }
      }
      match groupOf(xs[0])
      case Some(g) => [g] + rest
      case None => rest
  }

  /** How often a group occurs among the resolved groups is the size of that group in `_.groupBy`. */
  lemma {:induction false} GroupSizeIsCount(xs: seq<int>, groupOf: int -> Option<int>)
    ensures forall g :: Count(GroupIds(xs, groupOf), g) == |WithKey(xs, groupOf, Some(g))|
  {
    if xs != [] {
      GroupSizeIsCount(xs[1..], groupOf);
      var rest := GroupIds(xs[1..], groupOf);
      forall g ensures Count(GroupIds(xs, groupOf), g) == |WithKey(xs, groupOf, Some(g))| {
        match groupOf(xs[0])
        case Some(h) =>
          assert GroupIds(xs, groupOf) == [h] + rest;
          assert ([h] + rest)[1..] == rest;
        case None =>
      }
    }
  }

  /** No group resolves exactly when no entry's group resolves. */
  lemma GroupIdsEmpty(xs: seq<int>, groupOf: int -> Option<int>)
    ensures GroupIds(xs, groupOf) == [] <==> forall x :: x in xs ==> groupOf(x).None?
  {
    var ids := GroupIds(xs, groupOf);
    if ids != [] {
      var g := ids[0];
      assert g in ids;
      var i :| 0 <= i < |xs| && groupOf(xs[i]) == Some(g);
      var x := xs[i];
      assert x in xs;
    } else {
      forall x | x in xs ensures groupOf(x).None? {
        var i :| 0 <= i < |xs| && xs[i] == x;
      }
    }
  }

  /** The most common resolved group is at least as large as every group of `_.groupBy`. */
  lemma MostCommonGroupIsLargest(xs: seq<int>, groupOf: int -> Option<int>, g: int)
    requires MostCommon(GroupIds(xs, groupOf)) == Some(g)
    ensures forall h :: |WithKey(xs, groupOf, Some(h))| <= |WithKey(xs, groupOf, Some(g))|
  {
    var ids := GroupIds(xs, groupOf);
    GroupSizeIsCount(xs, groupOf);
    forall h ensures Count(ids, h) <= Count(ids, g) {
      if h !in ids {
        assert Count(ids, h) == 0;
      }
    }
  }

  /**
   * The collectible group with the most ornaments across all buckets, or
   * None when no ornament's group resolves.
   */
  function OrnamentWinner(m: ModsByBucket, isShader: int -> bool, groupOf: int -> Option<int>): (g: Option<int>)
    ensures g.None? <==> forall x :: x in Ornaments(m, isShader) ==> groupOf(x).None?
    ensures g.Some? ==> exists x :: x in Ornaments(m, isShader) && groupOf(x) == g
    ensures g.Some? ==> forall h :: |WithKey(Ornaments(m, isShader), groupOf, Some(h))|
                                 <= |WithKey(Ornaments(m, isShader), groupOf, g)|
  {
    var ornaments := Ornaments(m, isShader);
    var ids := GroupIds(ornaments, groupOf);
    GroupIdsEmpty(ornaments, groupOf);
    var w := MostCommon(ids);
    if w.None? then w
    else
      var i :| 0 <= i < |ornaments| && groupOf(ornaments[i]) == w;
      var x := ornaments[i];
      assert x in ornaments;
      MostCommonGroupIsLargest(ornaments, groupOf, w.value);
      w
  }

  /** The entry of lockable bucket number `i` for ornament set `ornamentSet`. */
  function OrnamentEntry(m: ModsByBucket, isShader: int -> bool, ornamentSet: seq<int>, unlocked: set<int>, i: nat)
    : (int, Option<seq<int>>)
    requires i < |LockableBucketHashes|
  {
    var bucket := LockableBucketHashes[i];
    if i < |ornamentSet| && ornamentSet[i] in unlocked then
      (bucket, Some(Keep(BucketMods(m, bucket), isShader, true) + [ornamentSet[i]]))
    else
      (bucket, if bucket in m then Some(m[bucket]) else None)
  }

  /** What an ornament sync does to lockable bucket number `i`. */
  ghost predicate OrnamentApplied(m: ModsByBucket, r: ModsByBucket, isShader: int -> bool,
                                  ornamentSet: seq<int>, unlocked: set<int>, i: nat)
    requires i < |LockableBucketHashes|
  {
    var b := LockableBucketHashes[i];
    if i < |ornamentSet| && ornamentSet[i] in unlocked then
      b in r && r[b] == Keep(BucketMods(m, b), isShader, true) + [ornamentSet[i]]
    else
      (b in r <==> b in m) && (b in m ==> r[b] == m[b])
  }

  /** The `[bucket, value]` entries handleSyncOrnament builds, one per lockable bucket. */
  function OrnamentEntries(m: ModsByBucket, isShader: int -> bool, ornamentSet: seq<int>, unlocked: set<int>)
    : (es: seq<(int, Option<seq<int>>)>)
    ensures |es| == |LockableBucketHashes|
    ensures forall i :: 0 <= i < |es| ==> es[i] == OrnamentEntry(m, isShader, ornamentSet, unlocked, i)
    ensures forall a, b :: 0 <= a < b < |es| ==> es[a].0 != es[b].0
  {
    LockableIsDistinct();
    seq(|LockableBucketHashes|, i requires 0 <= i < |LockableBucketHashes| => OrnamentEntry(m, isShader, ornamentSet, unlocked, i))
  }

  lemma OrnamentEntryApplied(m: ModsByBucket, isShader: int -> bool, ornamentSet: seq<int>, unlocked: set<int>, i: nat)
    requires i < |LockableBucketHashes|
    ensures OrnamentApplied(m, FromEntries(OrnamentEntries(m, isShader, ornamentSet, unlocked)), isShader, ornamentSet, unlocked, i)
  {
    FromEntriesDistinct(OrnamentEntries(m, isShader, ornamentSet, unlocked), i);
  }

  /** The `Object.fromEntries` over the lockable buckets for one ornament set. */
  function ApplyOrnamentSet(m: ModsByBucket, isShader: int -> bool, ornamentSet: seq<int>, unlocked: set<int>)
    : (r: ModsByBucket)
    ensures forall b :: b in r ==> b in LockableBucketHashes
    ensures forall i :: 0 <= i < |LockableBucketHashes| ==> OrnamentApplied(m, r, isShader, ornamentSet, unlocked, i)
  {
    var es := OrnamentEntries(m, isShader, ornamentSet, unlocked);
    var r := FromEntries(es);
    assert forall b :: b in r ==> b in LockableBucketHashes by {
      forall b | b in r ensures b in LockableBucketHashes {
        var i :| 0 <= i < |es| && es[i].0 == b;
      }
    }
    forall i | 0 <= i < |LockableBucketHashes| ensures OrnamentApplied(m, r, isShader, ornamentSet, unlocked, i) {
      OrnamentEntryApplied(m, isShader, ornamentSet, unlocked, i);
    }
    r
  }

  /**
   * handleSyncOrnament: with no resolvable ornament group nothing changes.
   * Otherwise only lockable buckets remain, and lockable bucket number `i`
   * switches to ornament `i` of the winning group's set, keeping its
   * shaders, when that ornament is unlocked; when it is not, or the set has
   * no `i`-th ornament, the bucket keeps its old value (or stays absent).
   */
  function SyncOrnaments(m: ModsByBucket, isShader: int -> bool, groupOf: int -> Option<int>,
                         setOf: int -> seq<int>, unlocked: set<int>): (r: ModsByBucket)
    ensures OrnamentWinner(m, isShader, groupOf).None? ==> r == m
    ensures OrnamentWinner(m, isShader, groupOf).Some? ==>
      (forall b :: b in r ==> b in LockableBucketHashes)
      && forall i :: 0 <= i < |LockableBucketHashes| ==>
           OrnamentApplied(m, r, isShader, setOf(OrnamentWinner(m, isShader, groupOf).value), unlocked, i)
  {
    match OrnamentWinner(m, isShader, groupOf)
    case None => m
    case Some(g) => ApplyOrnamentSet(m, isShader, setOf(g), unlocked)
  }

  /** An ornament sync never puts into a bucket a plug that is neither unlocked nor already there. */
  lemma SyncOrnamentsOnlyUnlocked(m: ModsByBucket, isShader: int -> bool, groupOf: int -> Option<int>,
                                  setOf: int -> seq<int>, unlocked: set<int>)
    ensures forall b, x :: (b in SyncOrnaments(m, isShader, groupOf, setOf, unlocked)
                             && x in SyncOrnaments(m, isShader, groupOf, setOf, unlocked)[b]
                             && x !in BucketMods(m, b)) ==> x in unlocked
  {
    var r := SyncOrnaments(m, isShader, groupOf, setOf, unlocked);
    if OrnamentWinner(m, isShader, groupOf).Some? {
      var ornamentSet := setOf(OrnamentWinner(m, isShader, groupOf).value);
      forall b, x | b in r && x in r[b] && x !in BucketMods(m, b) ensures x in unlocked {
        var i :| 0 <= i < |LockableBucketHashes| && LockableBucketHashes[i] == b;
        AppliedOnlyUnlocked(m, r, isShader, ornamentSet, unlocked, i, x);
      }
    }
  }

  lemma AppliedOnlyUnlocked(m: ModsByBucket, r: ModsByBucket, isShader: int -> bool,
                            ornamentSet: seq<int>, unlocked: set<int>, i: nat, x: int)
    requires i < |LockableBucketHashes|
    requires OrnamentApplied(m, r, isShader, ornamentSet, unlocked, i)
    requires LockableBucketHashes[i] in r && x in r[LockableBucketHashes[i]]
    requires x !in BucketMods(m, LockableBucketHashes[i])
    ensures x in unlocked
  {
    var b := LockableBucketHashes[i];
    if i < |ornamentSet| && ornamentSet[i] in unlocked {
      assert x in Keep(BucketMods(m, b), isShader, true) + [ornamentSet[i]];
    }
  }

  // ---------------------------------------------------------------------------
  // handleClearType
  // ---------------------------------------------------------------------------

  /**
   * handleClearType(shaders): every bucket loses its shaders (shaders ==
   * true) or its ornaments (shaders == false); a bucket left with nothing
   * is removed.
   */
  function ClearedOfType(m: ModsByBucket, isShader: int -> bool, shaders: bool): (r: ModsByBucket)
    ensures r.Keys <= m.Keys
    ensures forall b :: b in m ==> (b in r <==> Keep(m[b], isShader, !shaders) != [])
    ensures forall b :: b in r ==> r[b] == Keep(m[b], isShader, !shaders)
  {
    map b | b in m && Keep(m[b], isShader, !shaders) != [] :: Keep(m[b], isShader, !shaders)
  }

  /**
   * What clearing means: a bucket stays exactly when it holds something of
   * the other type, and what stays holds nothing of the cleared type.
   */
  lemma ClearedOfTypeMeaning(m: ModsByBucket, isShader: int -> bool, shaders: bool)
    ensures forall b :: b in ClearedOfType(m, isShader, shaders) ==>
      ClearedOfType(m, isShader, shaders)[b] != []
      && forall x :: x in ClearedOfType(m, isShader, shaders)[b] ==> isShader(x) != shaders
    ensures forall b :: b in m ==>
      (b in ClearedOfType(m, isShader, shaders) <==> exists x :: x in m[b] && isShader(x) != shaders)
  {
    var r := ClearedOfType(m, isShader, shaders);
    forall b | b in m && b in r ensures exists x :: x in m[b] && isShader(x) != shaders {
      var x := r[b][0];
      assert x in r[b];
    }
  }

  /** Any map that keeps and rewrites buckets as clearing does is the cleared map. */
  lemma ClearedOfTypeUnique(m: ModsByBucket, r: ModsByBucket, isShader: int -> bool, shaders: bool)
    requires r.Keys <= m.Keys
    requires forall b :: b in m ==>
      (b in r <==> Keep(m[b], isShader, !shaders) != []) && (b in r ==> r[b] == Keep(m[b], isShader, !shaders))
    ensures r == ClearedOfType(m, isShader, shaders)
  {
    var c := ClearedOfType(m, isShader, shaders);
    forall b | b in r ensures b in c {
      assert b in m;
    }
    forall b | b in c ensures b in r && r[b] == c[b] {
      assert b in m;
    }
    assert r.Keys == c.Keys;
  }

  /** Clearing a type twice is clearing it once. */
  lemma ClearedOfTypeIdempotent(m: ModsByBucket, isShader: int -> bool, shaders: bool)
    ensures ClearedOfType(ClearedOfType(m, isShader, shaders), isShader, shaders) == ClearedOfType(m, isShader, shaders)
  {
    var r := ClearedOfType(m, isShader, shaders);
    forall b | b in r ensures Keep(r[b], isShader, !shaders) == r[b] {
      KeepIdempotent(m[b], isShader, !shaders);
    }
  }

  // ---------------------------------------------------------------------------
  // FashionItem: which plug each cosmetic socket shows
  // ---------------------------------------------------------------------------

  /** `mods.find(mod => plugSet.includes(mod))` */
  function FirstMatch(mods: seq<int>, plugSet: seq<int>): (r: Option<int>)
    ensures r.None? <==> forall x :: x in mods ==> x !in plugSet
    ensures r.Some? ==> r.value in mods && r.value in plugSet
  {
    if mods == [] then None
    else if mods[0] in plugSet then
      var h := mods[0];
      assert h in mods;
      Some(h)
    else
      FirstMatch(mods[1..], plugSet)
  }

  /** The match is the first selected mod that fits: every mod before it does not. */
  lemma {:induction false} FirstMatchIsFirst(mods: seq<int>, plugSet: seq<int>)
    requires FirstMatch(mods, plugSet).Some?
    ensures exists i :: 0 <= i < |mods| && mods[i] == FirstMatch(mods, plugSet).value
                        && forall j :: 0 <= j < i ==> mods[j] !in plugSet
  {
    if mods[0] !in plugSet {
      FirstMatchIsFirst(mods[1..], plugSet);
      var i :| 0 <= i < |mods[1..]| && mods[1..][i] == FirstMatch(mods, plugSet).value
               && forall j :: 0 <= j < i ==> mods[1..][j] !in plugSet;
      assert mods[i + 1] == mods[1..][i];
      forall j | 0 <= j < i + 1 ensures mods[j] !in plugSet {
        if j > 0 {
          assert mods[j] == mods[1..][j - 1];
        }
      }
    }
  }

  /** JavaScript truthiness of an optional hash: defined and not zero. */
  predicate Truthy(h: Option<int>) {
    h.Some? && h.value != 0
  }

  /**
   * The plug a socket shows: the first selected mod that fits it; failing
   * that the default shader for a shader socket, else its default plug;
   * nothing when that default is missing or zero.
   */
  function SocketPlug(socket: Socket, mods: seq<int>): (r: Option<int>)
    ensures r.Some? ==> r.value != 0
    ensures Truthy(FirstMatch(mods, socket.plugSet)) ==> r == FirstMatch(mods, socket.plugSet)
    ensures !Truthy(FirstMatch(mods, socket.plugSet)) && socket.acceptsShader ==> r == Some(DefaultShader)
    ensures !Truthy(FirstMatch(mods, socket.plugSet)) && !socket.acceptsShader ==>
              r == (if Truthy(socket.defaultPlug) then socket.defaultPlug else None)
  {
    var matching := FirstMatch(mods, socket.plugSet);
    if Truthy(matching) then matching
    else
      var defaultHash := if socket.acceptsShader then Some(DefaultShader) else socket.defaultPlug;
      if Truthy(defaultHash) then defaultHash else None
  }

  predicate DistinctIndexes(sockets: seq<Socket>) {
    forall i, j :: 0 <= i < j < |sockets| ==> sockets[i].socketIndex != sockets[j].socketIndex
  }

  /**
   * The `plugsBySocketIndex` loop: every key is the index of a socket that
   * shows a plug; with distinct socket indexes, each socket's index maps
   * to exactly the plug it shows.
   */
  method PlugsBySocketIndex(sockets: seq<Socket>, mods: seq<int>) returns (plugs: map<int, int>)
    ensures forall k :: k in plugs ==>
      exists i :: 0 <= i < |sockets| && sockets[i].socketIndex == k && SocketPlug(sockets[i], mods) == Some(plugs[k])
    ensures DistinctIndexes(sockets) ==> forall i :: 0 <= i < |sockets| ==>
      (sockets[i].socketIndex in plugs <==> SocketPlug(sockets[i], mods).Some?)
      && (sockets[i].socketIndex in plugs ==> Some(plugs[sockets[i].socketIndex]) == SocketPlug(sockets[i], mods))
  {
    plugs := map[];
    for n := 0 to |sockets|
      invariant forall k :: k in plugs ==>
        exists i :: 0 <= i < n && sockets[i].socketIndex == k && SocketPlug(sockets[i], mods) == Some(plugs[k])
      invariant DistinctIndexes(sockets) ==> forall i :: 0 <= i < n ==>
        (sockets[i].socketIndex in plugs <==> SocketPlug(sockets[i], mods).Some?)
        && (sockets[i].socketIndex in plugs ==> Some(plugs[sockets[i].socketIndex]) == SocketPlug(sockets[i], mods))
    {
      var socket := sockets[n];
      var matching := FirstMatch(mods, socket.plugSet);
      if Truthy(matching) {
        plugs := plugs[socket.socketIndex := matching.value];
      } else {
        var defaultHash := if socket.acceptsShader then Some(DefaultShader) else socket.defaultPlug;
        if Truthy(defaultHash) {
          plugs := plugs[socket.socketIndex := defaultHash.value];
        }
      }
    }
  }

  // ---------------------------------------------------------------------------
  // The editor state
  // ---------------------------------------------------------------------------

  /** The editor: its `modsByBucket` state and the handlers that replace it. */
  class FashionEditor {
    var modsByBucket: ModsByBucket
    const isShader: int -> bool

    /** Seeded from the loadout's saved parameters, or empty. */
    constructor (saved: Option<ModsByBucket>, isShader: int -> bool)
      ensures modsByBucket == saved.GetOr(map[])
      ensures this.isShader == isShader
    {
      modsByBucket := saved.GetOr(map[]);
      this.isShader := isShader;
    }

    method HandlePlugSelected(bucket: int, plugSet: seq<int>, plugHash: int)
      modifies this
      ensures modsByBucket == SelectPlug(old(modsByBucket), bucket, plugSet, plugHash)
    {
      modsByBucket := SelectPlug(modsByBucket, bucket, plugSet, plugHash);
    }

    method HandleUseEquipped(entries: seq<LoadoutItem>, items: seq<Item>)
      modifies this
      ensures modsByBucket == EquippedMods(entries, items)
    {
      modsByBucket := EquippedMods(entries, items);
    }

    method HandleSyncShader()
      modifies this
      ensures modsByBucket == SyncShaders(old(modsByBucket), isShader)
    {
      if ShaderWinner(modsByBucket, isShader).Some? {
        modsByBucket := SyncShaders(modsByBucket, isShader);
      }
    }

    method HandleSyncOrnament(groupOf: int -> Option<int>, setOf: int -> seq<int>, unlocked: set<int>)
      modifies this
      ensures modsByBucket == SyncOrnaments(old(modsByBucket), isShader, groupOf, setOf, unlocked)
    {
      if OrnamentWinner(modsByBucket, isShader, groupOf).Some? {
        modsByBucket := SyncOrnaments(modsByBucket, isShader, groupOf, setOf, unlocked);
      }
    }

    /** The in-place loop over the buckets: delete a bucket left empty, else reassign it. */
    method HandleClearType(shaders: bool)
      modifies this
      ensures modsByBucket == ClearedOfType(old(modsByBucket), isShader, shaders)
    {
      ghost var start := modsByBucket;
      var pending := modsByBucket.Keys;
      while pending != {}
        invariant pending <= start.Keys
        invariant modsByBucket.Keys <= start.Keys
        invariant forall b :: b in pending ==> b in modsByBucket && modsByBucket[b] == start[b]
        invariant forall b :: b in start && b !in pending ==>
          (b in modsByBucket <==> Keep(start[b], isShader, !shaders) != [])
          && (b in modsByBucket ==> modsByBucket[b] == Keep(start[b], isShader, !shaders))
        decreases pending
      {
        Inhabited(pending);
        var bucket :| bucket in pending;
        var remaining := Keep(modsByBucket[bucket], isShader, !shaders);
        if remaining == [] {
          modsByBucket := modsByBucket - {bucket};
        } else {
          modsByBucket := modsByBucket[bucket := remaining];
        }
        pending := pending - {bucket};
      }
      ClearedOfTypeUnique(start, modsByBucket, isShader, shaders);
    }

    method Reset()
      modifies this
      ensures modsByBucket == map[]
    {
      modsByBucket := map[];
    }
  }
}
