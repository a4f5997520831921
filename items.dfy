/**
 * Item randomization: `get_all_items` splits the item records of the item
 * data into key items and regular items, and `randomize_items_in_file`
 * replaces each item by one of the same kind.
 */
module Items {
  import opened Options
  import opened Text
  import opened Tokens
  import opened Regions
  import opened Paths
  import opened Files

  const ItemPrefix: string := "ITEM_"
  const ItemPoolExclusions: seq<string> := ["ITEM_NONE", "ITEM_BERRY_POUCH", "ITEM_TM_CASE"]
  const ProtectedItems: seq<string> := ["ITEM_NONE"]
  const HmPrefix: string := "ITEM_HM"
  const KeyPocket: string := "POCKET_KEY_ITEMS"

  /** An entry of the `items` list: something other than an object, or an object with optional `itemId` and `pocket`. */
  datatype ItemRecord = NonDict | Record(itemId: Option<string>, pocket: Option<string>)

  /** The item data after loading: missing, not valid JSON, or its `items` list (empty when absent). */
  datatype ItemSource = Missing | Malformed | Parsed(items: seq<ItemRecord>)

  /** The record enters a pool: an object with a non-empty id that is neither excluded nor an HM. */
  predicate Kept(r: ItemRecord) {
    r.Record? && r.itemId.Some? && r.itemId.value != []
    && r.itemId.value !in ItemPoolExclusions && !StartsWith(r.itemId.value, HmPrefix)
  }

  predicate InKeyPocket(r: ItemRecord)
    requires r.Record?
  {
    r.pocket == Some(KeyPocket)
  }

  /** Reference: the ids of the kept key-pocket records, in record order. */
  function KeyPoolOf(items: seq<ItemRecord>): seq<string> {
    if items == [] then []
    else
      var r := items[|items| - 1];
      KeyPoolOf(items[..|items| - 1]) + (if Kept(r) && InKeyPocket(r) then [r.itemId.value] else [])
  }

  /** Reference: the ids of the other kept records, in record order. */
  function RegularPoolOf(items: seq<ItemRecord>): seq<string> {
    if items == [] then []
    else
      var r := items[|items| - 1];
      RegularPoolOf(items[..|items| - 1]) + (if Kept(r) && !InKeyPocket(r) then [r.itemId.value] else [])
  }

  /** Reference: the ids of all kept records, in record order. */
  function KeptIds(items: seq<ItemRecord>): seq<string> {
    if items == [] then []
    else
      var r := items[|items| - 1];
      KeptIds(items[..|items| - 1]) + (if Kept(r) then [r.itemId.value] else [])
  }

  /** `get_all_items`: both pools empty when the data is missing, malformed or has no items. */
  method GetAllItems(source: ItemSource) returns (regular: seq<string>, key: seq<string>)
    ensures !source.Parsed? ==> regular == [] && key == []
    ensures source.Parsed? ==> regular == RegularPoolOf(source.items) && key == KeyPoolOf(source.items)
  {
    regular, key := [], [];
    if !source.Parsed? || source.items == [] {
      return;
    }
    var items := source.items;
    var i := 0;
    while i < |items|
      invariant 0 <= i <= |items|
      invariant regular == RegularPoolOf(items[..i]) && key == KeyPoolOf(items[..i])
    {
      assert items[..i + 1][..i] == items[..i];
      var item := items[i];
      if item.Record? {
        var id := item.itemId;
        if id.Some? && id.value != [] && id.value !in ItemPoolExclusions && !StartsWith(id.value, HmPrefix) {
          if item.pocket == Some(KeyPocket) {
            key := key + [id.value];
          } else {
            regular := regular + [id.value];
          }
        }
      }
      i := i + 1;
    }
    assert items[..|items|] == items;
  }

  /** Every kept record lands in exactly one pool: the pools split the kept ids between them. */
  lemma {:induction false} PoolsPartitionKept(items: seq<ItemRecord>)
    ensures multiset(KeyPoolOf(items)) + multiset(RegularPoolOf(items)) == multiset(KeptIds(items))
    ensures |KeyPoolOf(items)| + |RegularPoolOf(items)| == |KeptIds(items)|
    decreases |items|
  {
    if items != [] {
      PoolsPartitionKept(items[..|items| - 1]);
    }
  }

  /** A kept id is in the pool of its pocket. */
  lemma {:induction false} KeptInItsPool(items: seq<ItemRecord>, i: nat)
    requires i < |items| && Kept(items[i])
    ensures InKeyPocket(items[i]) ==> items[i].itemId.value in KeyPoolOf(items)
    ensures !InKeyPocket(items[i]) ==> items[i].itemId.value in RegularPoolOf(items)
    decreases |items|
  {
    if i < |items| - 1 {
      KeptInItsPool(items[..|items| - 1], i);
    }
  }

  /** No pool holds an empty id, an excluded id or an HM. */
  lemma {:induction false} PoolsClean(items: seq<ItemRecord>, x: string)
    requires x in KeyPoolOf(items) || x in RegularPoolOf(items)
    ensures x != [] && x !in ItemPoolExclusions && !StartsWith(x, HmPrefix)
    decreases |items|
  {
    var init := items[..|items| - 1];
    if x in KeyPoolOf(init) || x in RegularPoolOf(init) {
      PoolsClean(init, x);
    }
  }

  /** Records that are not objects or have no id, or an empty one, contribute nothing. */
  lemma SkippedRecord(items: seq<ItemRecord>, r: ItemRecord)
    requires r.NonDict? || r.itemId.None? || r.itemId == Some([])
    ensures KeyPoolOf(items + [r]) == KeyPoolOf(items)
    ensures RegularPoolOf(items + [r]) == RegularPoolOf(items)
  {
    assert (items + [r])[..|items|] == items;
  }

  // ---------------------------------------------------------------------
  // The resolver.

  /**
   * `replacement_logic` in `randomize_items_in_file`. `all_known_items`
   * marks the key items first and then the regular ones, so an id in both
   * lists counts as regular.
   */
  function ItemStep(regular: seq<string>, key: seq<string>, choose: nat -> nat, t: string, n: nat): (string, nat) {
    if t in ProtectedItems then (t, n)
    else if t in key && t !in regular && key != [] then (Choice(key, choose, n), n + 1)
    else if t in regular && regular != [] then (Choice(regular, choose, n), n + 1)
    else (t, n)
  }

  function ItemResolver(regular: seq<string>, key: seq<string>, choose: nat -> nat): Resolver {
    (t: string, n: nat) => ItemStep(regular, key, choose, t, n)
  }

  /** The protected item and unknown ids stay; a regular id becomes a regular item, a key-only id a key item. */
  predicate AllowedItem(regular: seq<string>, key: seq<string>, t: string, u: string) {
    if t in ProtectedItems then u == t
    else if t in regular then u in regular
    else if t in key then u in key
    else u == t
  }

  function ItemAllowed(regular: seq<string>, key: seq<string>): (string, string) -> bool {
    (t: string, u: string) => AllowedItem(regular, key, t, u)
  }

  lemma ItemResolverRespects(regular: seq<string>, key: seq<string>, choose: nat -> nat)
    ensures Respects(ItemResolver(regular, key, choose), ItemAllowed(regular, key))
  {
  }

  /** Conversely, every allowed replacement is the one some chooser produces. */
  lemma ItemStepReaches(regular: seq<string>, key: seq<string>, t: string, u: string, n: nat)
    requires AllowedItem(regular, key, t, u)
    ensures exists choose: nat -> nat :: ItemStep(regular, key, choose, t, n).0 == u
  {
    if t in ProtectedItems || (t !in regular && t !in key) {
      assert ItemStep(regular, key, PickAt(0), t, n).0 == u;
    } else {
      var pool := if t in regular then regular else key;
      var i := IndexOf(pool, u);
      ChoicePick(pool, i, n);
      assert ItemStep(regular, key, PickAt(i), t, n).0 == u;
    }
  }

  /** With pools from the item data, an HM or an excluded id is never replaced. */
  lemma UnknownItemsKept(items: seq<ItemRecord>, choose: nat -> nat, t: string, n: nat)
    requires t in ItemPoolExclusions || StartsWith(t, HmPrefix)
    ensures ItemStep(RegularPoolOf(items), KeyPoolOf(items), choose, t, n) == (t, n)
  {
    if t in RegularPoolOf(items) { PoolsClean(items, t); }
    if t in KeyPoolOf(items) { PoolsClean(items, t); }
  }

  /**
   * The item phase of `__main__`: load the pools and, when either is
   * non-empty, rewrite every file of the item file list.
   */
  method RandomizeItems(fs: FileSystem, root: string, auto: seq<string>, source: ItemSource, choose: nat -> nat, n: nat)
    returns (fs': FileSystem, regular: seq<string>, key: seq<string>, n': nat)
    ensures !source.Parsed? ==> regular == [] && key == []
    ensures source.Parsed? ==> regular == RegularPoolOf(source.items) && key == KeyPoolOf(source.items)
    ensures fs'.Keys == fs.Keys
    ensures regular == [] && key == [] ==> fs' == fs
    ensures forall p :: p in fs && p !in ItemFileList(root, auto) ==> fs'[p] == fs[p]
    ensures regular != [] || key != [] ==>
      forall p :: p in fs && p in ItemFileList(root, auto) ==>
        FileConforms(fs[p], fs'[p], ItemPrefix, ItemAllowed(regular, key))
  {
    regular, key := GetAllItems(source);
    fs', n' := fs, n;
    if regular != [] || key != [] {
      var files := ItemFileList(root, auto);
      ItemFileListCorrect(root, auto);
      SortedDistinct(files);
      ItemResolverRespects(regular, key, choose);
      fs', n' := RewriteFiles(fs, files, ItemPrefix, ItemResolver(regular, key, choose), ItemAllowed(regular, key), n);
    }
  }
}
