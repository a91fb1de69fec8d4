/** The hash table itself: an array of chains, each a sequence of entries, updated in place by the
    operations of path/local/st.c. */
module HashTable {
  import opened Bits
  import opened Seqs
  import opened HashSpec

  /** The loops of rehash: every entry goes to the bin that its hash selects in the new array. */
  method MoveAll(from: array<seq<Entry>>, into: array<seq<Entry>>)
    requires from != into && into.Length > 0 && forall i :: 0 <= i < into.Length ==> into[i] == []
    modifies into
    ensures Placed(into[..])
    ensures multiset(Flat(into[..])) == multiset(Flat(from[..]))
  {
    FlatEmpty(into[..]);
    var i := 0;
    while i < from.Length
      invariant 0 <= i <= from.Length
      invariant Placed(into[..])
      invariant multiset(Flat(into[..])) == multiset(Flat(from[..][..i]))
    {
      MoveChain(from[i], into);
      FlatSplit(from[..], i);
      i := i + 1;
    }
    assert from[..][..i] == from[..];
  }

  method MoveChain(chain: seq<Entry>, into: array<seq<Entry>>)
    requires Placed(into[..]) && into.Length > 0
    modifies into
    ensures Placed(into[..])
    ensures multiset(Flat(into[..])) == old(multiset(Flat(into[..]))) + multiset(chain)
  {
    hide Flat, Placed;
    var ptr := 0;
    while ptr < |chain|
      invariant 0 <= ptr <= |chain|
      invariant Placed(into[..])
      invariant multiset(Flat(into[..])) == old(multiset(Flat(into[..]))) + multiset(chain[..ptr])
    {
      var e := chain[ptr];
      var at := e.hash % into.Length;
      ghost var bins := into[..];
      PushOne(bins, e);
      into[at] := [e] + into[at];
      assert into[..] == bins[at := [e] + bins[at]];
      assert chain[..ptr + 1] == chain[..ptr] + [e];
      ptr := ptr + 1;
    }
    assert chain[..ptr] == chain;
  }

  // ------------------------------------------------------------------ the table

  /** What a delete leaves in the caller's value variable. */
  datatype Slot = Untouched | Cleared | Holds(record: Ptr)

  class Table {
    const kind: HashType
    /** The sentinel that deferred deletion uses: no key and no record of the caller. */
    ghost const never: Ptr
    var numBins: int
    var numEntries: int
    var bins: array<seq<Entry>>
    ghost var level: nat
    ghost var contents: map<Key, Entry>

    ghost predicate Core()
      reads this, bins
    {
      && level < 28 && numBins == bins.Length == Prime(level)
      && Placed(bins[..])
      && Agrees(multiset(Flat(bins[..])), contents, kind, never)
    }

    ghost predicate Valid()
      reads this, bins
    {
      Core() && numEntries == |contents| <= 6 * numBins
    }

    /** The number of tombstones: entries that the map does not know. */
    ghost function Tombs(): int
      reads this, bins
    {
      |Flat(bins[..])| - |contents|
    }

    lemma TombsAreTombstones()
      requires Core()
      ensures Tombs() >= 0 && (Tombs() == 0 <==> AllLive(Flat(bins[..]), never))
    {
      TombsAreRest(Flat(bins[..]), contents, kind, never);
    }

    constructor (kind: HashType, size: int, ghost never: Ptr)
      requires -0x8000_0000 <= size < 0x4000_0000
      ensures Valid() && fresh(bins) && contents == map[] && Tombs() == 0
      ensures this.kind == kind && this.never == never && size < numBins && IsLevel(size, level)
    {
      hide Pow2;
      var r, l := NewSize(size);
      PrimeBetween(l);
      this.kind := kind;
      this.never := never;
      numBins := r;
      numEntries := 0;
      bins := new seq<Entry>[r](_ => []);
      level := l;
      contents := map[];
      new;
      FlatEmpty(bins[..]);
    }

    /** FIND_ENTRY. */
    method FindEntry(key: Ptr, hash: nat) returns (pos: nat, p: nat)
      requires Core() && hash == HashOf(kind, key) && KeyOf(kind, key) != KeyOf(kind, never)
      ensures pos < bins.Length && pos == hash % numBins && p <= |bins[pos]|
      ensures p < |bins[pos]| <==> KeyOf(kind, key) in contents
      ensures p < |bins[pos]| ==> bins[pos][p] == contents[KeyOf(kind, key)] && bins[pos][p].key != never
      ensures p < |bins[pos]| ==> KeyOf(kind, bins[pos][p].key) == KeyOf(kind, key)
    {
      hide Prime, HashOf, Agrees;
      pos := hash % numBins;
      var chain := bins[pos];
      p := 0;
      if |chain| > 0 && !Matches(kind, chain[0], hash, key) {
        while p + 1 < |chain| && !Matches(kind, chain[p + 1], hash, key)
          invariant 0 <= p < |chain|
          invariant forall j :: 0 <= j <= p ==> !Matches(kind, chain[j], hash, key)
        {
          p := p + 1;
        }
        p := p + 1;
      }
      ChainSearch(bins[..], contents, kind, never, key, p);
    }

    /** st_lookup: 1 and the record exactly when the map has the key. */
    method Lookup(key: Ptr) returns (found: bool, record: Ptr)
      requires Valid() && KeyOf(kind, key) != KeyOf(kind, never)
      ensures found <==> KeyOf(kind, key) in contents
      ensures found ==> record == contents[KeyOf(kind, key)].record
    {
      var pos, p := FindEntry(key, HashOf(kind, key));
      if p == |bins[pos]| {
        return false, key;
      }
      return true, bins[pos][p].record;
    }

    /** Storing a chain, once it is known what that does to the entries and the map. */
    method SetBin(pos: nat, chain: seq<Entry>, ghost after: map<Key, Entry>)
      requires Core() && Fits(bins[..], pos, chain, after, kind, never)
      modifies bins, `contents
      ensures Core() && contents == after
      ensures bins[..] == old(bins[..])[pos := chain]
      ensures |Flat(bins[..])| == old(|Flat(bins[..])|) - old(|bins[pos]|) + |chain|
    {
      hide Prime, Agrees, Flat;
      FlatUpdate(bins[..], pos, chain);
      PlacedUpdate(bins[..], pos, chain);
      LengthUpdate(bins[..], pos, chain);
      hide Placed;
      ghost var target := bins[..][pos := chain];
      bins[pos] := chain;
      contents := after;
      assert bins[..] == target;
    }

    /** ADD_DIRECT. */
    method AddAt(key: Ptr, value: Ptr, hash: nat, pos: nat)
      requires Valid() && numEntries < INT_MAX
      requires hash == HashOf(kind, key) && pos == hash % numBins && KeyOf(kind, key) !in contents
      requires key != never && value != never
      modifies this, bins
      ensures Valid() && (bins == old(bins) || fresh(bins))
      ensures contents == Stored(kind, old(contents), key, value) && Tombs() == old(Tombs())
      ensures level == old(level) + if old(numEntries) >= 6 * old(numBins) then 1 else 0
    {
      hide HashOf, Agrees, Prime;
      var at := pos;
      DensityBound(numEntries, numBins);
      if numEntries / numBins > 5 {
        NeverRunsOut(level, numEntries);
        Rehash();
        at := hash % numBins;
      }
      var entry := Entry(hash, key, value);
      FitsPush(bins[..], contents, kind, never, entry);
      SetBin(at, [entry] + bins[at], contents[KeyOf(kind, key) := entry]);
      numEntries := numEntries + 1;
    }

    /** st_add_direct, for a key that the table does not hold. */
    method AddDirect(key: Ptr, value: Ptr)
      requires Valid() && numEntries < INT_MAX
      requires KeyOf(kind, key) !in contents && key != never && value != never
      modifies this, bins
      ensures Valid() && (bins == old(bins) || fresh(bins))
      ensures contents == Stored(kind, old(contents), key, value) && Tombs() == old(Tombs())
      ensures level == old(level) + if old(numEntries) >= 6 * old(numBins) then 1 else 0
    {
      var hash := HashOf(kind, key);
      AddAt(key, value, hash, hash % numBins);
    }

    /** rehash: the next table size, the same entries, the same map. */
    method Rehash()
      requires Core() && level < 27
      modifies this
      ensures Core() && fresh(bins) && contents == old(contents) && numEntries == old(numEntries)
      ensures level == old(level) + 1 && numBins > old(numBins)
      ensures multiset(Flat(bins[..])) == multiset(Flat(old(bins[..]))) && Tombs() == old(Tombs())
    {
      hide Pow2, Agrees, Prime, Placed, Flat, IsLevel;
      PrimeBetween(level);
      Pow2Small();
      NextSize(level, level);
      var newNumBins, next := NewSize(numBins + 1);
      NextSize(level, next);
      var newBins := new seq<Entry>[newNumBins](_ => []);
      ghost var order := Flat(bins[..]);
      MoveAll(bins, newBins);
      SameLength(Flat(newBins[..]), order);
      numBins := newNumBins;
      bins := newBins;
      level := next;
    }

    /** st_insert: a new key is added, a known one keeps its stored key pointer and gets the record. */
    method Insert(key: Ptr, value: Ptr) returns (found: bool)
      requires Valid() && numEntries < INT_MAX
      requires KeyOf(kind, key) != KeyOf(kind, never) && value != never
      modifies this, bins
      ensures Valid() && (bins == old(bins) || fresh(bins))
      ensures found <==> KeyOf(kind, key) in old(contents)
      ensures contents == Stored(kind, old(contents), key, value) && Tombs() == old(Tombs())
      ensures level == old(level) + if !found && old(numEntries) >= 6 * old(numBins) then 1 else 0
    {
      hide Prime, HashOf, Agrees, Flat, Placed, Fits;
      var hash := HashOf(kind, key);
      var pos, p := FindEntry(key, hash);
      if p == |bins[pos]| {
        AddAt(key, value, hash, pos);
        found := false;
      } else {
        var e := bins[pos][p];
        assert Stored(kind, contents, key, value) == contents[KeyOf(kind, e.key) := e.(record := value)];
        FitsReplace(bins[..], contents, kind, never, pos, p, value);
        SetBin(pos, bins[pos][p := e.(record := value)], Stored(kind, contents, key, value));
        found := true;
      }
    }

    /** st_delete: the key goes, its stored pointer and record come back. The comparison does not look
        at the stored hash. The caller's value is cleared only when the bin is empty. */
    method Delete(key: Ptr) returns (found: bool, stored: Ptr, value: Slot)
      requires Valid() && KeyOf(kind, key) != KeyOf(kind, never)
      modifies this, bins
      ensures Valid() && bins == old(bins)
      ensures found <==> KeyOf(kind, key) in old(contents)
      ensures contents == old(contents) - {KeyOf(kind, key)} && Tombs() == old(Tombs())
      ensures found ==> var e := old(contents)[KeyOf(kind, key)]; stored == e.key && value == Holds(e.record)
      ensures !found ==> stored == key
      ensures !found ==> value == if old(bins[HashOf(kind, key) % bins.Length]) == [] then Cleared else Untouched
    {
      hide Prime, HashOf, Agrees, Fits, Flat, Placed;
      var pos := HashOf(kind, key) % numBins;
      var chain := bins[pos];
      found, stored, value := false, key, Untouched;
      if chain == [] {
        ChainSearch(bins[..], contents, kind, never, key, 0);
        value := Cleared;
        return;
      }
      var p := 0;
      while p < |chain| && !Equal(kind, key, chain[p].key)
        invariant 0 <= p <= |chain|
        invariant forall j :: 0 <= j < p ==> !Equal(kind, key, chain[j].key)
      {
        p := p + 1;
      }
      ChainSearch(bins[..], contents, kind, never, key, p);
      if p < |chain| {
        FitsDrop(bins[..], contents, kind, never, pos, p);
        SetBin(pos, Without(chain, p), contents - {KeyOf(kind, key)});
        numEntries := numEntries - 1;
        found, stored, value := true, chain[p].key, Holds(chain[p].record);
      }
    }

    /** st_delete_safe: to every other operation the key is gone; the entry stays as a tombstone. */
    method DeleteSafe(key: Ptr, sentinel: Ptr) returns (found: bool, stored: Ptr, value: Slot)
      requires Valid() && sentinel == never && KeyOf(kind, key) != KeyOf(kind, never)
      modifies this, bins
      ensures Valid() && bins == old(bins)
      ensures found <==> KeyOf(kind, key) in old(contents)
      ensures contents == old(contents) - {KeyOf(kind, key)}
      ensures Tombs() == old(Tombs()) + if found then 1 else 0
      ensures found ==> var e := old(contents)[KeyOf(kind, key)]; stored == e.key && value == Holds(e.record)
      ensures !found ==> stored == key
      ensures !found ==> value == if old(bins[HashOf(kind, key) % bins.Length]) == [] then Cleared else Untouched
      ensures forall i :: 0 <= i < bins.Length ==> |bins[i]| == old(|bins[i]|)
    {
      hide Prime, HashOf, Agrees, Fits, Flat, Placed;
      var pos := HashOf(kind, key) % numBins;
      var chain := bins[pos];
      found, stored, value := false, key, Untouched;
      if chain == [] {
        ChainSearch(bins[..], contents, kind, never, key, 0);
        value := Cleared;
        return;
      }
      var p := 0;
      while p < |chain| && !(chain[p].key != sentinel && Equal(kind, chain[p].key, key))
        invariant 0 <= p <= |chain|
        invariant forall j :: 0 <= j < p ==> !Equal(kind, key, chain[j].key)
      {
        p := p + 1;
      }
      ChainSearch(bins[..], contents, kind, never, key, p);
      if p < |chain| {
        FitsTombstone(bins[..], contents, kind, never, pos, p);
        SetBin(pos, chain[p := chain[p].(key := sentinel, record := sentinel)], contents - {KeyOf(kind, key)});
        numEntries := numEntries - 1;
        found, stored, value := true, chain[p].key, Holds(chain[p].record);
      }
    }

    /** st_foreach: every entry before the first Stop is visited once, in order, and leaves exactly
        when the callback says Delete. */
    method Foreach(f: Callback)
      requires Core()
      modifies this, bins
      ensures Core() && bins == old(bins)
      ensures Flat(bins[..]) == Sweep(old(Flat(bins[..])), f)
      ensures numEntries == old(numEntries) - (old(|Flat(bins[..])|) - |Flat(bins[..])|) <= old(numEntries)
      ensures var visited := VisitedKeys(old(Flat(bins[..])), f, kind, never);
        && contents == Walked(old(contents), f, visited)
        && old(Tombs()) >= 0 && Complete(old(contents), old(Tombs()), f, never, visited)
      ensures old(Valid()) ==> (Valid() <==> SparesTombs(old(Flat(bins[..])), f, never))
      ensures old(Valid()) && Valid() ==> Tombs() == old(Tombs())
    {
      hide AllLive, Prime, Agrees, Flat, Sweep, Surviving, Placed, Progress, Complete, Walked, VisitedKeys, SparesTombs;
      ghost var order := Flat(bins[..]);
      SweepStart(bins[..], f);
      var i := 0;
      while i < numBins
        invariant 0 <= i <= numBins == bins.Length && bins == old(bins) && level == old(level)
        invariant contents == old(contents) && numBins == old(numBins)
        invariant Placed(bins[..])
        invariant if i < numBins then Progress(bins[..], i, 0, f) == Sweep(order, f)
                  else Flat(bins[..]) == Sweep(order, f)
        invariant numEntries == old(numEntries) - (|order| - |Flat(bins[..])|)
      {
        var ptr := 0;
        while ptr < |bins[i]|
          invariant 0 <= i < numBins == bins.Length && bins == old(bins) && level == old(level)
          invariant contents == old(contents) && numBins == old(numBins)
          invariant 0 <= ptr <= |bins[i]|
          invariant Placed(bins[..])
          invariant Progress(bins[..], i, ptr, f) == Sweep(order, f)
          invariant numEntries == old(numEntries) - (|order| - |Flat(bins[..])|)
          decreases |bins[i]| - ptr
        {
          var e := bins[i][ptr];
          SweepStep(bins[..], i, ptr, f);
          match f(e.key, e.record) {
            case Continue =>
              ptr := ptr + 1;
            case Stop =>
              Settle(order, f);
              return;
            case Delete =>
              DropAt(i, ptr);
              numEntries := numEntries - 1;
          }
        }
        SweepNextBin(bins[..], i, f);
        i := i + 1;
      }
      Settle(order, f);
    }

    /** Unlinking one entry of a bin. */
    method DropAt(i: nat, p: nat)
      requires i < bins.Length && p < |bins[i]| && Placed(bins[..])
      modifies bins
      ensures bins[..] == old(bins[..])[i := Without(old(bins[i]), p)]
      ensures Placed(bins[..]) && |Flat(bins[..])| == old(|Flat(bins[..])|) - 1
    {
      ghost var was := bins[..];
      var chain := Without(bins[i], p);
      WithoutBag(was[i], p);
      PlacedUpdate(was, i, chain);
      FlatSplit(was, i);
      FlatSplit(was[i := chain], i);
      assert was[i := chain][..i] == was[..i] && was[i := chain][i + 1..] == was[i + 1..];
      hide Flat, Placed;
      bins[i] := chain;
      assert bins[..] == was[i := chain];
    }

    ghost method Settle(order: seq<Entry>, f: Callback)
      requires level < 28 && numBins == bins.Length == Prime(level) && Placed(bins[..])
      requires Agrees(multiset(order), contents, kind, never) && Flat(bins[..]) == Sweep(order, f)
      modifies `contents
      ensures Core() && contents == Surviving(old(contents), multiset(Flat(bins[..])))
      ensures |Flat(bins[..])| <= |order| && |old(contents)| <= |order|
      ensures var visited := VisitedKeys(order, f, kind, never);
        contents == Walked(old(contents), f, visited) &&
        Complete(old(contents), |order| - |old(contents)|, f, never, visited)
      ensures |old(contents)| - (|order| - |Flat(bins[..])|) == |contents| <==> SparesTombs(order, f, never)
    {
      hide Flat, Sweep, Placed, Surviving, AllLive, Agrees, Complete, Walked, VisitedKeys, SparesTombs;
      SweepKeepsLess(order, f);
      AgreesSub(multiset(order), multiset(Flat(bins[..])), contents, kind, never);
      SurvivingIsWalked(order, contents, kind, never, f);
      TombsAreRest(order, contents, kind, never);
      VisitIsComplete(order, contents, kind, never, f);
      CountKeptIff(order, contents, kind, never, f);
      contents := Surviving(contents, multiset(Flat(bins[..])));
    }

    /** st_cleanup_safe: exactly the tombstones go; order, map and count stay. */
    method CleanupSafe(sentinel: Ptr)
      requires Valid() && sentinel == never
      modifies this, bins
      ensures Valid() && bins == old(bins)
      ensures Flat(bins[..]) == LiveOnly(old(Flat(bins[..])), never)
      ensures contents == old(contents) && numEntries == |Flat(bins[..])| && Tombs() == 0
    {
      hide Agrees, Flat, Sweep, LiveOnly, Prime, Placed, DeleteNever, Surviving, Walked, VisitedKeys;
      hide Complete, SparesTombs;
      var n := numEntries;
      ghost var order, before := Flat(bins[..]), contents;
      CleanupKeeps(order, before, kind, never);
      SurvivingIsWalked(order, before, kind, never, DeleteNever(never));
      Foreach(DeleteNever(sentinel));
      assert Flat(bins[..]) == LiveOnly(order, never);
      assert contents == before;
      numEntries := n;
    }

    /** st_copy: the same map, entry by entry, over chains of its own, each in reverse order. */
    constructor CopyOf(from: Table)
      requires from.Valid()
      ensures Valid() && fresh(bins) && kind == from.kind && never == from.never
      ensures contents == from.contents && numEntries == from.numEntries && numBins == from.numBins
      ensures Tombs() == from.Tombs()
      ensures forall i :: 0 <= i < bins.Length ==> bins[i] == Reversed(from.bins[i])
    {
      hide Prime, Agrees, Placed, Flat;
      kind, never, numBins, numEntries := from.kind, from.never, from.numBins, from.numEntries;
      level, contents := from.level, from.contents;
      var copy := new seq<Entry>[from.numBins](_ => []);
      bins := copy;
      new;
      var i := 0;
      while i < from.numBins
        modifies copy
        invariant 0 <= i <= from.numBins
        invariant forall k :: 0 <= k < i ==> copy[k] == Reversed(from.bins[k])
      {
        copy[i] := [];
        var chain, ptr := from.bins[i], 0;
        while ptr < |chain|
          modifies copy
          invariant 0 <= ptr <= |chain|
          invariant copy[i] == Reversed(chain[..ptr])
          invariant forall k :: 0 <= k < i ==> copy[k] == Reversed(from.bins[k])
        {
          assert chain[..ptr + 1][..ptr] == chain[..ptr];
          copy[i] := [chain[ptr]] + copy[i];
          ptr := ptr + 1;
        }
        assert chain[..ptr] == chain;
        i := i + 1;
      }
      ReversedTable(from.bins[..], copy[..]);
      SameLength(Flat(copy[..]), Flat(from.bins[..]));
    }
  }
}
