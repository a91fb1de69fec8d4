/** The chained hash table of path/local/st.c as values: keys and hashing, table sizes, chains, and
    the map from keys to entries that a table stands for. The map does not depend on the number of
    bins or on the order within a chain. */
module HashSpec {
  import opened Arith
  import opened Bits
  import opened Seqs

  // ------------------------------------------------------------------ keys and hashing

  /** A `char *` and the characters it points to, each as the int that `char` converts to. A table
      of numbers uses the pointer itself as the number. */
  datatype Ptr = Ptr(addr: int, text: seq<int>)

  /** The two `st_hash_type` tables. */
  datatype HashType = NumHash | StrHash

  /** What a comparison function looks at. */
  datatype Key = Number(n: int) | Text(t: seq<int>)

  datatype Entry = Entry(hash: nat, key: Ptr, record: Ptr)

  function KeyOf(kind: HashType, p: Ptr): Key {
    match kind
    case NumHash => Number(p.addr)
    case StrHash => Text(p.text)
  }

  /** EQUAL: the same pointer, or a comparison that says so. */
  predicate Equal(kind: HashType, x: Ptr, y: Ptr) {
    x == y || KeyOf(kind, x) == KeyOf(kind, y)
  }

  /** Two's complement reading of the low 32 bits. */
  function Int32(x: int): int {
    if x % WORD >= 0x8000_0000 then x % WORD - WORD else x % WORD
  }

  function StrValue(s: seq<int>): int {
    if s == [] then 0 else Int32(StrValue(s[..|s| - 1]) * 997 + s[|s| - 1])
  }

  /** numhash and strhash, converted to unsigned; `>> 5` of a negative int rounds down. */
  function HashOf(kind: HashType, p: Ptr): nat {
    match kind
    case NumHash => p.addr % WORD
    case StrHash => var v := StrValue(p.text); (v + v / 32) % WORD
  }

  lemma EqualKeysHashEqually(kind: HashType, x: Ptr, y: Ptr)
    requires Equal(kind, x, y)
    ensures HashOf(kind, x) == HashOf(kind, y)
  {
  }

  function Pow997(n: nat): nat {
    if n == 0 then 1 else 997 * Pow997(n - 1)
  }

  /** The text as a number in base 997, first character first. */
  function InBase997(s: seq<int>): int {
    if s == [] then 0 else s[0] * Pow997(|s| - 1) + InBase997(s[1..])
  }

  /** strhash wraps around at every character; it could as well wrap around once, at the end. */
  lemma {:induction false} HashIsBase997(s: seq<int>)
    ensures StrValue(s) == Int32(InBase997(s))
    ensures forall p: Ptr :: p.text == s ==>
              var v := Int32(InBase997(s)); HashOf(StrHash, p) == (v + v / 32) % WORD
  {
    if s != [] {
      var n := |s| - 1;
      HashIsBase997(s[..n]);
      LastDigit(s[..n], s[n]);
      assert s[..n] + [s[n]] == s;
      WrapsOnce(InBase997(s[..n]), s[n]);
    }
  }

  lemma {:induction false} LastDigit(s: seq<int>, c: int)
    ensures InBase997(s + [c]) == InBase997(s) * 997 + c
  {
    if s == [] {
      assert (s + [c])[1..] == [];
    } else {
      assert (s + [c])[1..] == s[1..] + [c];
      LastDigit(s[1..], c);
      MulAssociates(s[0], Pow997(|s| - 1), 997);
      assert s[0] * Pow997(|s|) == s[0] * Pow997(|s| - 1) * 997;
    }
  }

  lemma WrapsOnce(x: int, c: int)
    ensures Int32(Int32(x) * 997 + c) == Int32(x * 997 + c)
  {
    var k := if x % WORD >= 0x8000_0000 then x / WORD + 1 else x / WORD;
    assert x == WORD * (x / WORD) + x % WORD;
    assert x == Int32(x) + WORD * k;
    SameRemainder(Int32(x) * 997 + c, 997 * k);
  }

  lemma SameRemainder(x: int, k: int)
    ensures (x + WORD * k) % WORD == x % WORD
  {
    DivModUnique(WORD, x / WORD + k, x % WORD);
  }

  // ------------------------------------------------------------------ table sizes

  const INT_MAX := 0x7fff_ffff

  /** What each table size adds to its power of two. */
  const EXTRA := [3, 3, 5, 3, 3, 27, 9, 9, 5, 3, 27, 43, 3, 45, 29, 3, 21, 7, 17, 15, 9, 43, 35, 15,
                  29, 3, 11, 85]

  function Prime(i: nat): (p: nat)
    requires i < 28
    ensures p >= 1
  {
    Pow2(i + 3) + EXTRA[i]
  }

  lemma PrimeBetween(i: nat)
    requires i < 28
    ensures Pow2(i + 3) < Prime(i) && Prime(i) + 1 < Pow2(i + 4)
  {
    assert Pow2(3) == 8 && Pow2(4) == 16 && Pow2(5) == 32 && Pow2(6) == 64 && Pow2(7) == 128;
    if i >= 4 {
      Pow2Monotone(7, i + 3);
    }
  }

  lemma Pow2Small()
    ensures Pow2(3) == 8 && Pow2(30) == 0x4000_0000
  {
    Pow2Word();
  }

  lemma Doubling(i: nat)
    requires i < 28
    ensures Pow2(i + 3) <= 0x4000_0000
    ensures Int32(Pow2(i + 3) * 2) == if i < 27 then Pow2(i + 4) else -0x8000_0000
  {
    Pow2Small();
    if i < 27 {
      Pow2Monotone(i + 3, 29);
    }
  }

  /** new_size: the first size whose power of two exceeds the argument; the doubling overflows
      before the last slot of the table could be chosen. */
  method NewSize(size: int) returns (r: int, ghost level: nat)
    requires -0x8000_0000 <= size <= INT_MAX
    ensures r == -1 <==> size >= 0x4000_0000
    ensures r != -1 ==> IsLevel(size, level) && r == Prime(level)
  {
    Pow2Small();
    hide Pow2, Int32;
    var i, newsize := 0, 8;
    level := 0;
    while i < 29
      invariant 0 <= i <= 29
      invariant i < 28 ==> newsize == Pow2(i + 3)
      invariant i == 28 ==> newsize == -0x8000_0000
      invariant 1 <= i <= 28 ==> Pow2(i + 2) <= size
      invariant i == 29 ==> 0x4000_0000 <= size
    {
      if newsize > size {
        level := i;
        Doubling(i);
        r := if i < 28 then Prime(i) else 0;
        return;
      }
      if i < 28 {
        Doubling(i);
      }
      i := i + 1;
      newsize := Int32(newsize * 2);
    }
    r := -1;
  }

  ghost predicate IsLevel(size: int, level: nat) {
    level < 28 && size < Pow2(level + 3) && (level == 0 || Pow2(level + 2) <= size)
  }

  /** The size after a table size is the next one, strictly larger; only the last has none. */
  lemma NextSize(level: nat, next: nat)
    requires level < 28
    ensures Prime(level) + 1 >= 0x4000_0000 <==> level == 27
    ensures IsLevel(Prime(level) + 1, next) ==> level < 27 && next == level + 1
    ensures level < 27 ==> Prime(level) < Prime(level + 1)
  {
    hide Pow2, Prime;
    Pow2Small();
    PrimeBetween(level);
    if level < 27 {
      Pow2Monotone(level + 4, 30);
      PrimeBetween(level + 1);
    }
    if IsLevel(Prime(level) + 1, next) {
      if next > level + 1 {
        Pow2Monotone(level + 4, next + 2);
      } else if next <= level {
        Pow2Monotone(next + 3, level + 3);
      }
    }
  }

  // ------------------------------------------------------------------ entries in traversal order

  /** The entries in the order in which st_foreach meets them. */
  function Flat(bins: seq<seq<Entry>>): seq<Entry> {
    if bins == [] then [] else Flat(bins[..|bins| - 1]) + bins[|bins| - 1]
  }

  lemma {:induction false} FlatAppend(a: seq<seq<Entry>>, b: seq<seq<Entry>>)
    ensures Flat(a + b) == Flat(a) + Flat(b)
  {
    if b == [] {
      assert a + b == a;
    } else {
      var n := |b| - 1;
      assert (a + b)[..|a| + n] == a + b[..n];
      FlatAppend(a, b[..n]);
      assert Flat(a + b) == Flat(a) + Flat(b[..n]) + b[n];
    }
  }

  lemma FlatOne(chain: seq<Entry>)
    ensures Flat([chain]) == chain
  {
    assert [chain][..0] == [];
  }

  lemma SeqSplit<T>(s: seq<T>, i: nat)
    requires i < |s|
    ensures s[..i + 1] == s[..i] + [s[i]]
    ensures s[i..] == [s[i]] + s[i + 1..]
    ensures s == s[..i + 1] + s[i + 1..]
  {
  }

  lemma FlatSplit(bins: seq<seq<Entry>>, i: nat)
    requires i < |bins|
    ensures Flat(bins) == Flat(bins[..i]) + bins[i] + Flat(bins[i + 1..])
    ensures Flat(bins[i..]) == bins[i] + Flat(bins[i + 1..])
    ensures Flat(bins[..i + 1]) == Flat(bins[..i]) + bins[i]
  {
    hide Flat;
    var a, x, b := bins[..i], bins[i], bins[i + 1..];
    SeqSplit(bins, i);
    FlatOne(x);
    FlatAppend([x], b);
    FlatAppend(a, [x]);
    FlatAppend(bins[..i + 1], b);
  }

  /** Replacing one chain changes the bag of entries by the difference of the chains. */
  lemma FlatUpdate(bins: seq<seq<Entry>>, i: nat, chain: seq<Entry>)
    requires i < |bins|
    ensures multiset(bins[i]) <= multiset(Flat(bins))
    ensures multiset(Flat(bins[i := chain])) ==
            multiset(Flat(bins)) - multiset(bins[i]) + multiset(chain)
  {
    var after := bins[i := chain];
    FlatSplit(bins, i);
    FlatSplit(after, i);
    assert after[..i] == bins[..i] && after[i + 1..] == bins[i + 1..];
    BagOfThree(Flat(bins[..i]), bins[i], Flat(bins[i + 1..]));
    BagOfThree(Flat(bins[..i]), chain, Flat(bins[i + 1..]));
  }

  lemma LengthUpdate(bins: seq<seq<Entry>>, i: nat, chain: seq<Entry>)
    requires i < |bins|
    ensures |Flat(bins[i := chain])| == |Flat(bins)| - |bins[i]| + |chain|
  {
    var after := bins[i := chain];
    FlatSplit(bins, i);
    FlatSplit(after, i);
    assert after[..i] == bins[..i] && after[i + 1..] == bins[i + 1..];
  }

  lemma SameLength<T>(a: seq<T>, b: seq<T>)
    requires multiset(a) == multiset(b)
    ensures |a| == |b|
  {
    assert |multiset(a)| == |multiset(b)|;
  }

  lemma BagOfThree<T>(a: seq<T>, b: seq<T>, c: seq<T>)
    ensures multiset(a + b + c) == multiset(a) + multiset(b) + multiset(c)
  {
  }

  lemma InFlat(bins: seq<seq<Entry>>, e: Entry)
    ensures e in multiset(Flat(bins)) <==> exists i :: 0 <= i < |bins| && e in bins[i]
  {
    if e in Flat(bins) {
      var i := BinOf(bins, e);
    }
    forall i | 0 <= i < |bins| && e in bins[i]
      ensures e in Flat(bins)
    {
      FlatSplit(bins, i);
    }
  }

  lemma {:induction false} BinOf(bins: seq<seq<Entry>>, e: Entry) returns (i: nat)
    requires e in Flat(bins)
    ensures i < |bins| && e in bins[i]
  {
    i := |bins| - 1;
    if e !in bins[i] {
      i := BinOf(bins[..i], e);
    }
  }

  // ------------------------------------------------------------------ the map behind the entries

  /** Live entries and map agree: one live entry a key, under its own hash. A tombstone is an entry
      whose key and record are both the sentinel. */
  ghost predicate Agrees(bag: multiset<Entry>, contents: map<Key, Entry>, kind: HashType, never: Ptr) {
    && (forall e :: e in bag ==> EntryAgrees(e, bag[e], contents, kind, never))
    && (forall c :: c in contents ==> contents[c] in bag && contents[c].key != never &&
                                      KeyOf(kind, contents[c].key) == c)
  }

  ghost predicate EntryAgrees(e: Entry, count: nat, contents: map<Key, Entry>, kind: HashType, never: Ptr) {
    if e.key == never then e.record == never
    else
      && e.record != never && e.hash == HashOf(kind, e.key) && count == 1
      && KeyOf(kind, e.key) in contents && contents[KeyOf(kind, e.key)] == e
  }

  lemma AgreesAdd(bag: multiset<Entry>, contents: map<Key, Entry>, kind: HashType, never: Ptr, e: Entry)
    requires Agrees(bag, contents, kind, never)
    requires KeyOf(kind, e.key) !in contents && e.key != never && e.record != never
    requires e.hash == HashOf(kind, e.key)
    ensures Agrees(bag + multiset{e}, contents[KeyOf(kind, e.key) := e], kind, never)
  {
    assert e !in bag;
    forall f | f in bag + multiset{e}
      ensures EntryAgrees(f, (bag + multiset{e})[f], contents[KeyOf(kind, e.key) := e], kind, never)
    {
      assert f != e ==> EntryAgrees(f, bag[f], contents, kind, never);
    }
  }

  /** Adding an entry unseen, as ADD_DIRECT does, leaves entries that agree with some map exactly when
      the key was absent. */
  lemma AddUnseenIff(bag: multiset<Entry>, contents: map<Key, Entry>, kind: HashType, never: Ptr, e: Entry)
    requires Agrees(bag, contents, kind, never)
    requires e.key != never && e.record != never && e.hash == HashOf(kind, e.key)
    ensures (exists after :: Agrees(bag + multiset{e}, after, kind, never)) <==> KeyOf(kind, e.key) !in contents
  {
    var c := KeyOf(kind, e.key);
    if c !in contents {
      AgreesAdd(bag, contents, kind, never, e);
    } else if after :| Agrees(bag + multiset{e}, after, kind, never) {
      OneEntryAKey(bag + multiset{e}, after, kind, never, e, contents[c]);
    }
  }

  /** Live entries with the same key are one and the same. */
  lemma OneEntryAKey(bag: multiset<Entry>, contents: map<Key, Entry>, kind: HashType, never: Ptr, e: Entry, f: Entry)
    requires Agrees(bag, contents, kind, never) && e in bag && f in bag
    requires e.key != never && f.key != never && KeyOf(kind, e.key) == KeyOf(kind, f.key)
    ensures e == f && bag[e] == 1
  {
    assert EntryAgrees(e, bag[e], contents, kind, never);
    assert EntryAgrees(f, bag[f], contents, kind, never);
  }

  lemma AgreesRemove(bag: multiset<Entry>, contents: map<Key, Entry>, kind: HashType, never: Ptr, e: Entry)
    requires Agrees(bag, contents, kind, never) && e in bag && e.key != never
    ensures Agrees(bag - multiset{e}, contents - {KeyOf(kind, e.key)}, kind, never)
    ensures KeyOf(kind, e.key) in contents && contents[KeyOf(kind, e.key)] == e
  {
    assert EntryAgrees(e, bag[e], contents, kind, never);
    var rest := bag - multiset{e};
    forall f | f in rest
      ensures EntryAgrees(f, rest[f], contents - {KeyOf(kind, e.key)}, kind, never)
    {
      assert EntryAgrees(f, bag[f], contents, kind, never);
    }
  }

  lemma AgreesTombstone(bag: multiset<Entry>, contents: map<Key, Entry>, kind: HashType, never: Ptr, e: Entry)
    requires Agrees(bag, contents, kind, never) && e.key == never && e.record == never
    ensures Agrees(bag + multiset{e}, contents, kind, never)
  {
    forall f | f in bag + multiset{e}
      ensures EntryAgrees(f, (bag + multiset{e})[f], contents, kind, never)
    {
      assert f in bag ==> EntryAgrees(f, bag[f], contents, kind, never);
    }
  }

  function LiveCount(order: seq<Entry>, never: Ptr): nat {
    if order == [] then 0
    else LiveCount(order[..|order| - 1], never) + if order[|order| - 1].key == never then 0 else 1
  }

  /** The map has as many keys as there are live entries. */
  lemma {:induction false} LiveCountIsSize(order: seq<Entry>, contents: map<Key, Entry>, kind: HashType, never: Ptr)
    requires Agrees(multiset(order), contents, kind, never)
    ensures LiveCount(order, never) == |contents|
  {
    if order == [] {
      assert contents == map[];
    } else {
      var n := |order| - 1;
      var before, e := order[..n], order[n];
      assert order == before + [e];
      assert multiset(order) - multiset{e} == multiset(before);
      if e.key == never {
        forall f | f in multiset(before)
          ensures EntryAgrees(f, multiset(before)[f], contents, kind, never)
        {
          assert EntryAgrees(f, multiset(order)[f], contents, kind, never);
        }
        LiveCountIsSize(before, contents, kind, never);
      } else {
        AgreesRemove(multiset(order), contents, kind, never, e);
        LiveCountIsSize(before, contents - {KeyOf(kind, e.key)}, kind, never);
      }
    }
  }

  /** No tombstone. */
  ghost predicate AllLive(order: seq<Entry>, never: Ptr) {
    forall e :: e in order ==> e.key != never
  }

  /** Every entry sits in the bin that its hash selects. */
  ghost predicate Placed(bins: seq<seq<Entry>>) {
    forall i, e :: 0 <= i < |bins| && e in bins[i] ==> e.hash % |bins| == i
  }

  /** The entry at a position of a chain, taken out. */
  function Without(chain: seq<Entry>, p: nat): seq<Entry>
    requires p < |chain|
  {
    chain[..p] + chain[p + 1..]
  }

  lemma WithoutBag(chain: seq<Entry>, p: nat)
    requires p < |chain|
    ensures multiset(Without(chain, p)) == multiset(chain) - multiset{chain[p]}
    ensures forall e :: e in Without(chain, p) ==> e in chain
  {
    assert chain == chain[..p] + [chain[p]] + chain[p + 1..];
  }

  lemma ReplaceBag(chain: seq<Entry>, p: nat, e: Entry)
    requires p < |chain|
    ensures multiset(chain[p := e]) == multiset(chain) - multiset{chain[p]} + multiset{e}
    ensures forall f :: f in chain[p := e] ==> f in chain || f == e
  {
  }

  lemma PushBag(chain: seq<Entry>, e: Entry)
    ensures multiset([e] + chain) == multiset(chain) + multiset{e}
    ensures forall f :: f in [e] + chain ==> f in chain || f == e
  {
  }

  /** A change of one chain that only brings in entries of that bin. */
  lemma PlacedUpdate(bins: seq<seq<Entry>>, i: nat, chain: seq<Entry>)
    requires Placed(bins) && i < |bins|
    requires forall e :: e in chain ==> e in bins[i] || e.hash % |bins| == i
    ensures Placed(bins[i := chain])
  {
  }

  lemma AgreesReplace(bag: multiset<Entry>, contents: map<Key, Entry>, kind: HashType, never: Ptr, e: Entry, value: Ptr)
    requires Agrees(bag, contents, kind, never) && e in bag && e.key != never && value != never
    ensures Agrees(bag - multiset{e} + multiset{e.(record := value)},
                   contents[KeyOf(kind, e.key) := e.(record := value)], kind, never)
  {
    var c := KeyOf(kind, e.key);
    assert EntryAgrees(e, bag[e], contents, kind, never);
    AgreesRemove(bag, contents, kind, never, e);
    AgreesAdd(bag - multiset{e}, contents - {c}, kind, never, e.(record := value));
    assert (contents - {c})[c := e.(record := value)] == contents[c := e.(record := value)];
  }

  /** FIND_ENTRY's test, and what a search of one chain by it amounts to in the map. */
  predicate Matches(kind: HashType, e: Entry, hash: nat, key: Ptr) {
    e.hash == hash && Equal(kind, key, e.key)
  }

  lemma ChainSearch(bins: seq<seq<Entry>>, contents: map<Key, Entry>, kind: HashType, never: Ptr, key: Ptr, p: nat)
    requires Placed(bins) && |bins| > 0 && Agrees(multiset(Flat(bins)), contents, kind, never)
    requires KeyOf(kind, key) != KeyOf(kind, never)
    requires p <= |bins[HashOf(kind, key) % |bins|]|
    requires var chain := bins[HashOf(kind, key) % |bins|];
      && (p < |chain| ==> Equal(kind, key, chain[p].key))
      && (p == |chain| ==> forall j :: 0 <= j < p ==> !Matches(kind, chain[j], HashOf(kind, key), key))
    ensures var chain, c := bins[HashOf(kind, key) % |bins|], KeyOf(kind, key);
      && (p < |chain| <==> c in contents)
      && (p < |chain| ==> chain[p] == contents[c] && chain[p].key != never && chain[p] in multiset(Flat(bins)))
  {
    var hash, c := HashOf(kind, key), KeyOf(kind, key);
    var chain := bins[hash % |bins|];
    if p < |chain| {
      InFlat(bins, chain[p]);
      assert chain[p] in multiset(Flat(bins));
    } else if c in contents {
      InFlat(bins, contents[c]);
    }
  }

  /** An empty table. */
  lemma {:induction false} FlatEmpty(bins: seq<seq<Entry>>)
    requires forall i :: 0 <= i < |bins| ==> bins[i] == []
    ensures Flat(bins) == [] && Placed(bins)
  {
    if bins != [] {
      FlatEmpty(bins[..|bins| - 1]);
    }
  }

  // ------------------------------------------------------------------ walking the table

  datatype Verdict = Continue | Stop | Delete

  /** What st_foreach calls for each entry, its argument already supplied. */
  type Callback = (Ptr, Ptr) -> Verdict

  /** What st_foreach leaves of the entries, in traversal order: up to the first Stop the entries
      marked Delete go; from there on nothing changes. */
  function Sweep(order: seq<Entry>, f: Callback): seq<Entry> {
    if order == [] then []
    else match f(order[0].key, order[0].record)
      case Continue => [order[0]] + Sweep(order[1..], f)
      case Stop => order
      case Delete => Sweep(order[1..], f)
  }

  lemma {:induction false} SweepKeepsLess(order: seq<Entry>, f: Callback)
    ensures multiset(Sweep(order, f)) <= multiset(order) && |Sweep(order, f)| <= |order|
  {
    if order != [] {
      assert order == [order[0]] + order[1..];
      SweepKeepsLess(order[1..], f);
    }
  }

  lemma AgreesSub(bag: multiset<Entry>, some: multiset<Entry>, contents: map<Key, Entry>, kind: HashType, never: Ptr)
    requires Agrees(bag, contents, kind, never) && some <= bag
    ensures Agrees(some, Surviving(contents, some), kind, never)
  {
    forall e | e in some
      ensures EntryAgrees(e, some[e], Surviving(contents, some), kind, never)
    {
      assert EntryAgrees(e, bag[e], contents, kind, never);
    }
  }

  ghost function Surviving(contents: map<Key, Entry>, some: multiset<Entry>): map<Key, Entry> {
    map c | c in contents && contents[c] in some :: contents[c]
  }

  /** Where the walk stands: done before position p of bin i, the rest still to be swept. */
  ghost function Progress(bins: seq<seq<Entry>>, i: nat, p: nat, f: Callback): seq<Entry>
    requires i < |bins| && p <= |bins[i]|
  {
    Flat(bins[..i]) + bins[i][..p] + Sweep(bins[i][p..] + Flat(bins[i + 1..]), f)
  }

  lemma SweepStart(bins: seq<seq<Entry>>, f: Callback)
    requires |bins| > 0
    ensures Progress(bins, 0, 0, f) == Sweep(Flat(bins), f)
  {
    hide Sweep;
    FlatSplit(bins, 0);
    assert Flat(bins[..0]) + bins[0][..0] == [];
    assert bins[0][0..] == bins[0] && Flat(bins[..0]) + bins[0] == bins[0];
  }

  lemma SweepNextBin(bins: seq<seq<Entry>>, i: nat, f: Callback)
    requires i < |bins|
    ensures i + 1 < |bins| ==> Progress(bins, i + 1, 0, f) == Progress(bins, i, |bins[i]|, f)
    ensures i + 1 == |bins| ==> Flat(bins) == Progress(bins, i, |bins[i]|, f)
  {
    FlatSplit(bins, i);
    var done := Flat(bins[..i]);
    assert bins[i][..|bins[i]|] == bins[i] && bins[i][|bins[i]|..] == [];
    assert [] + Flat(bins[i + 1..]) == Flat(bins[i + 1..]);
    if i + 1 < |bins| {
      FlatSplit(bins, i + 1);
      assert bins[i + 1][..0] == [] && bins[i + 1][0..] == bins[i + 1];
      assert done + bins[i] + [] == done + bins[i];
    } else {
      assert bins[i + 1..] == [];
      assert Sweep([], f) == [];
      assert done + bins[i] + [] == done + bins[i];
    }
  }

  lemma SweepCons(e: Entry, rest: seq<Entry>, f: Callback)
    ensures Sweep([e] + rest, f) == match f(e.key, e.record)
                                    case Continue => [e] + Sweep(rest, f)
                                    case Stop => [e] + rest
                                    case Delete => Sweep(rest, f)
  {
    assert ([e] + rest)[1..] == rest;
  }

  lemma SweepStep(bins: seq<seq<Entry>>, i: nat, p: nat, f: Callback)
    requires i < |bins| && p < |bins[i]|
    ensures match f(bins[i][p].key, bins[i][p].record)
            case Continue => Progress(bins, i, p + 1, f) == Progress(bins, i, p, f)
            case Stop => Flat(bins) == Progress(bins, i, p, f)
            case Delete => Progress(bins[i := Without(bins[i], p)], i, p, f) == Progress(bins, i, p, f)
  {
    hide Flat, Sweep;
    var chain, done, after := bins[i], Flat(bins[..i]), Flat(bins[i + 1..]);
    var e, rest := chain[p], chain[p + 1..] + after;
    SeqSplit(chain, p);
    Regroup([e], chain[p + 1..], after);
    SweepCons(e, rest, f);
    FlatSplit(bins, i);
    match f(e.key, e.record)
    case Continue =>
      RegroupPairs(done, chain[..p], [e], Sweep(rest, f));
    case Stop =>
      SeqSplit2(chain, p);
      RegroupPairs(done, chain[..p], chain[p..], after);
    case Delete =>
      var now := bins[i := Without(chain, p)];
      assert now[..i] == bins[..i] && now[i + 1..] == bins[i + 1..];
      assert Without(chain, p)[..p] == chain[..p] && Without(chain, p)[p..] == chain[p + 1..];
  }

  lemma SeqSplit2<T>(s: seq<T>, i: nat)
    requires i <= |s|
    ensures s == s[..i] + s[i..]
  {
  }

  /** The callback of st_cleanup_safe: delete_never with its argument. */
  function DeleteNever(never: Ptr): Callback {
    (key, value) => if value == never then Delete else Continue
  }

  function LiveOnly(order: seq<Entry>, never: Ptr): seq<Entry> {
    if order == [] then []
    else (if order[0].key == never then [] else [order[0]]) + LiveOnly(order[1..], never)
  }

  /** Sweeping with delete_never takes out exactly the tombstones and keeps the order. */
  lemma {:induction false} SweepIsLive(order: seq<Entry>, never: Ptr)
    requires forall e :: e in order ==> (e.record == never <==> e.key == never)
    ensures Sweep(order, DeleteNever(never)) == LiveOnly(order, never)
  {
    if order != [] {
      SweepIsLive(order[1..], never);
    }
  }

  lemma {:induction false} LiveOnlyKeeps(order: seq<Entry>, never: Ptr, e: Entry)
    ensures multiset(LiveOnly(order, never))[e] == if e.key == never then 0 else multiset(order)[e]
  {
    if order != [] {
      assert order == [order[0]] + order[1..];
      LiveOnlyKeeps(order[1..], never, e);
    }
  }

  lemma {:induction false} ReversedFlat(bins: seq<seq<Entry>>, copy: seq<seq<Entry>>)
    requires |copy| == |bins| && forall i :: 0 <= i < |bins| ==> copy[i] == Reversed(bins[i])
    ensures multiset(Flat(copy)) == multiset(Flat(bins))
  {
    if bins != [] {
      var n := |bins| - 1;
      ReversedBag(bins[n]);
      ReversedFlat(bins[..n], copy[..n]);
    }
  }

  lemma ReversedTable(bins: seq<seq<Entry>>, copy: seq<seq<Entry>>)
    requires |copy| == |bins| && forall i :: 0 <= i < |bins| ==> copy[i] == Reversed(bins[i])
    requires Placed(bins)
    ensures multiset(Flat(copy)) == multiset(Flat(bins)) && Placed(copy)
  {
    ReversedFlat(bins, copy);
    forall i, e | 0 <= i < |copy| && e in copy[i]
      ensures e.hash % |copy| == i
    {
      ReversedBag(bins[i]);
      assert e in multiset(copy[i]);
      assert e in bins[i];
    }
  }

  /** What the sweep of st_cleanup_safe leaves: the live entries, and with them the whole map. */
  lemma CleanupKeeps(order: seq<Entry>, contents: map<Key, Entry>, kind: HashType, never: Ptr)
    requires Agrees(multiset(order), contents, kind, never)
    ensures Sweep(order, DeleteNever(never)) == LiveOnly(order, never)
    ensures Surviving(contents, multiset(LiveOnly(order, never))) == contents
    ensures |LiveOnly(order, never)| == |contents|
  {
    forall e | e in order
      ensures e.record == never <==> e.key == never
    {
      assert e in multiset(order);
      assert EntryAgrees(e, multiset(order)[e], contents, kind, never);
    }
    SweepIsLive(order, never);
    forall c | c in contents
      ensures contents[c] in multiset(LiveOnly(order, never))
    {
      LiveOnlyKeeps(order, never, contents[c]);
    }
    LiveCountIsSize(order, contents, kind, never);
    LiveOnlyLength(order, never);
  }

  lemma {:induction false} LiveOnlyLength(order: seq<Entry>, never: Ptr)
    ensures |LiveOnly(order, never)| == LiveCount(order, never)
  {
    if order != [] {
      LiveOnlyLength(order[1..], never);
      LiveCountFirst(order, never);
    }
  }

  lemma {:induction false} LiveCountFirst(order: seq<Entry>, never: Ptr)
    requires order != []
    ensures LiveCount(order, never) == LiveCount(order[1..], never) + if order[0].key == never then 0 else 1
  {
    var n := |order| - 1;
    if n > 0 {
      LiveCountFirst(order[..n], never);
      assert order[..n][1..] == order[1..][..n - 1];
    } else {
      assert order[..0] == [] && order[1..] == [];
    }
  }

  // ------------------------------------------------------------------ what a walk does to the map

  /** How many entries the walk gets through before the first Stop. */
  function StopAt(order: seq<Entry>, f: Callback): (n: nat)
    ensures n <= |order|
  {
    if order == [] || f(order[0].key, order[0].record) == Stop then 0 else 1 + StopAt(order[1..], f)
  }

  /** The keys of the live entries among them. */
  ghost function VisitedKeys(order: seq<Entry>, f: Callback, kind: HashType, never: Ptr): set<Key> {
    set e | e in order[..StopAt(order, f)] && e.key != never :: KeyOf(kind, e.key)
  }

  /** A map without the keys that were visited and marked Delete. */
  ghost function Walked(contents: map<Key, Entry>, f: Callback, visited: set<Key>): map<Key, Entry> {
    map c | c in contents && !(c in visited && f(contents[c].key, contents[c].record) == Delete) :: contents[c]
  }

  /** The visited keys are keys of the map, none of them with a Stop; they are all of them unless
      a Stop came first, on another key or on a tombstone. */
  ghost predicate Complete(contents: map<Key, Entry>, tombs: nat, f: Callback, never: Ptr, visited: set<Key>) {
    && visited <= contents.Keys
    && (forall c :: c in visited ==> f(contents[c].key, contents[c].record) != Stop)
    && (visited == contents.Keys
        || (tombs > 0 && f(never, never) == Stop)
        || exists c :: c in contents && c !in visited && f(contents[c].key, contents[c].record) == Stop)
  }

  lemma {:induction false} NoStopBefore(order: seq<Entry>, f: Callback)
    ensures forall e :: e in order[..StopAt(order, f)] ==> f(e.key, e.record) != Stop
    ensures StopAt(order, f) < |order| ==>
              f(order[StopAt(order, f)].key, order[StopAt(order, f)].record) == Stop
  {
    if order != [] && f(order[0].key, order[0].record) != Stop {
      NoStopBefore(order[1..], f);
      assert order[..StopAt(order, f)] == [order[0]] + order[1..][..StopAt(order[1..], f)];
    }
  }

  /** An entry that occurs once stays unless it was visited and marked Delete. */
  lemma {:induction false} SweepKeepsIff(order: seq<Entry>, f: Callback, e: Entry)
    requires multiset(order)[e] == 1
    ensures e in multiset(Sweep(order, f)) <==>
            !(e in order[..StopAt(order, f)] && f(e.key, e.record) == Delete)
  {
    var first, rest := order[0], order[1..];
    assert order == [first] + rest;
    SweepKeepsLess(rest, f);
    if f(first.key, first.record) != Stop {
      var n := StopAt(rest, f);
      assert order[..StopAt(order, f)] == [first] + rest[..n];
      if first == e {
        assert e !in multiset(rest);
        assert e !in rest[..n];
      } else {
        SweepKeepsIff(rest, f, e);
      }
    }
  }

  /** The map after a walk is the old one without what was visited and marked Delete, and the visit
      is complete. */
  lemma SurvivingIsWalked(order: seq<Entry>, contents: map<Key, Entry>, kind: HashType, never: Ptr, f: Callback)
    requires Agrees(multiset(order), contents, kind, never)
    ensures Surviving(contents, multiset(Sweep(order, f))) == Walked(contents, f, VisitedKeys(order, f, kind, never))
  {
    var visited := VisitedKeys(order, f, kind, never);
    forall c | c in contents
      ensures contents[c] in multiset(Sweep(order, f)) <==>
              !(c in visited && f(contents[c].key, contents[c].record) == Delete)
    {
      var e := contents[c];
      assert EntryAgrees(e, multiset(order)[e], contents, kind, never);
      SweepKeepsIff(order, f, e);
      VisitedIff(order, contents, kind, never, f, c);
    }
  }

  lemma VisitedIff(order: seq<Entry>, contents: map<Key, Entry>, kind: HashType, never: Ptr, f: Callback, c: Key)
    requires Agrees(multiset(order), contents, kind, never) && c in contents
    ensures c in VisitedKeys(order, f, kind, never) <==> contents[c] in order[..StopAt(order, f)]
  {
    var n := StopAt(order, f);
    if c in VisitedKeys(order, f, kind, never) {
      var e :| e in order[..n] && e.key != never && KeyOf(kind, e.key) == c;
      assert e in multiset(order);
      assert EntryAgrees(e, multiset(order)[e], contents, kind, never);
    }
  }

  lemma VisitIsComplete(order: seq<Entry>, contents: map<Key, Entry>, kind: HashType, never: Ptr, f: Callback)
    requires Agrees(multiset(order), contents, kind, never) && |contents| <= |order|
    ensures Complete(contents, |order| - |contents|, f, never, VisitedKeys(order, f, kind, never))
  {
    var n, visited := StopAt(order, f), VisitedKeys(order, f, kind, never);
    NoStopBefore(order, f);
    forall c | c in visited
      ensures c in contents && f(contents[c].key, contents[c].record) != Stop
    {
      var e :| e in order[..n] && e.key != never && KeyOf(kind, e.key) == c;
      assert e in multiset(order);
      assert EntryAgrees(e, multiset(order)[e], contents, kind, never);
    }
    if n == |order| {
      forall c | c in contents
        ensures c in visited
      {
        VisitedIff(order, contents, kind, never, f, c);
        assert contents[c] in order;
      }
    } else {
      StopIsUnvisited(order, contents, kind, never, f, n);
    }
  }

  lemma StopIsUnvisited(order: seq<Entry>, contents: map<Key, Entry>, kind: HashType, never: Ptr, f: Callback, n: nat)
    requires Agrees(multiset(order), contents, kind, never) && n == StopAt(order, f) < |order|
    ensures var e := order[n];
      if e.key == never then f(never, never) == Stop && |order| > |contents|
      else KeyOf(kind, e.key) in contents && KeyOf(kind, e.key) !in VisitedKeys(order, f, kind, never) &&
           contents[KeyOf(kind, e.key)] == e && f(e.key, e.record) == Stop
  {
    var e := order[n];
    NoStopBefore(order, f);
    assert e in multiset(order);
    assert EntryAgrees(e, multiset(order)[e], contents, kind, never);
    if e.key == never {
      TombsAreRest(order, contents, kind, never);
      assert !AllLive(order, never);
    } else {
      VisitedIff(order, contents, kind, never, f, KeyOf(kind, e.key));
    }
  }

  /** The entries beyond the map's are tombstones. */
  lemma TombsAreRest(order: seq<Entry>, contents: map<Key, Entry>, kind: HashType, never: Ptr)
    requires Agrees(multiset(order), contents, kind, never)
    ensures |contents| <= |order| && (|contents| == |order| <==> AllLive(order, never))
  {
    LiveCountIsSize(order, contents, kind, never);
    LiveCountAll(order, never);
  }

  lemma {:induction false} LiveCountAll(order: seq<Entry>, never: Ptr)
    ensures LiveCount(order, never) <= |order|
    ensures LiveCount(order, never) == |order| <==> AllLive(order, never)
  {
    if order != [] {
      var n := |order| - 1;
      LiveCountAll(order[..n], never);
      assert order == order[..n] + [order[n]];
    }
  }

  /** The callback keeps tombstones, or none comes before the first Stop. */
  ghost predicate SparesTombs(order: seq<Entry>, f: Callback, never: Ptr) {
    f(never, never) != Delete || AllLive(order[..StopAt(order, f)], never)
  }

  /** Exactly then a walk takes away no tombstone. */
  lemma {:induction false} TombsKeptIff(order: seq<Entry>, f: Callback, never: Ptr)
    requires forall e :: e in order && e.key == never ==> e.record == never
    ensures |Sweep(order, f)| - LiveCount(Sweep(order, f), never) <= |order| - LiveCount(order, never)
    ensures |Sweep(order, f)| - LiveCount(Sweep(order, f), never) == |order| - LiveCount(order, never) <==>
            SparesTombs(order, f, never)
  {
    if order != [] && f(order[0].key, order[0].record) != Stop {
      var first, rest := order[0], order[1..];
      TombsKeptIff(rest, f, never);
      LiveCountFirst(order, never);
      AllLiveCons(first, rest[..StopAt(rest, f)], never);
      assert order[..StopAt(order, f)] == [first] + rest[..StopAt(rest, f)];
      if f(first.key, first.record) == Continue {
        var swept := Sweep(order, f);
        assert swept == [first] + Sweep(rest, f) && swept[1..] == Sweep(rest, f);
        LiveCountFirst(swept, never);
      }
    } else {
      assert order[..StopAt(order, f)] == [];
    }
  }

  lemma AllLiveCons(e: Entry, order: seq<Entry>, never: Ptr)
    ensures AllLive([e] + order, never) <==> e.key != never && AllLive(order, never)
  {
    assert forall g :: g in [e] + order <==> g == e || g in order;
  }

  /** The count stays right under the same condition. */
  lemma CountKeptIff(order: seq<Entry>, contents: map<Key, Entry>, kind: HashType, never: Ptr, f: Callback)
    requires Agrees(multiset(order), contents, kind, never)
    ensures |contents| - (|order| - |Sweep(order, f)|) == |Surviving(contents, multiset(Sweep(order, f)))| <==>
            SparesTombs(order, f, never)
  {
    forall e | e in order && e.key == never
      ensures e.record == never
    {
      assert e in multiset(order);
      assert EntryAgrees(e, multiset(order)[e], contents, kind, never);
    }
    TombsKeptIff(order, f, never);
    SweepKeepsLess(order, f);
    AgreesSub(multiset(order), multiset(Sweep(order, f)), contents, kind, never);
    LiveCountIsSize(order, contents, kind, never);
    LiveCountIsSize(Sweep(order, f), Surviving(contents, multiset(Sweep(order, f))), kind, never);
  }

  /** Without a Stop a walk filters the whole map. */
  lemma WalkWithoutStop(contents: map<Key, Entry>, tombs: nat, f: Callback, never: Ptr, visited: set<Key>)
    requires Complete(contents, tombs, f, never, visited)
    requires forall c :: c in contents ==> f(contents[c].key, contents[c].record) != Stop
    requires tombs > 0 ==> f(never, never) != Stop
    ensures Walked(contents, f, visited) ==
            map c | c in contents && f(contents[c].key, contents[c].record) != Delete :: contents[c]
  {
    assert visited == contents.Keys;
  }

  // ------------------------------------------------------------------ changes of one chain

  /** Storing this chain keeps entries in their bins and makes the entries agree with `after`. */
  ghost predicate Fits(bins: seq<seq<Entry>>, pos: nat, chain: seq<Entry>, after: map<Key, Entry>,
                       kind: HashType, never: Ptr) {
    && pos < |bins|
    && (forall e :: e in chain ==> e in bins[pos] || e.hash % |bins| == pos)
    && Agrees(multiset(Flat(bins)) - multiset(bins[pos]) + multiset(chain), after, kind, never)
  }

  lemma BagSwap<T>(bag: multiset<T>, a: multiset<T>, e: T, b: multiset<T>)
    requires a <= bag && e in a
    ensures bag - a + (a - multiset{e} + b) == bag - multiset{e} + b
    ensures bag - a + (a - multiset{e}) == bag - multiset{e}
  {
  }

  lemma BagPush<T>(bag: multiset<T>, a: multiset<T>, e: T)
    requires a <= bag
    ensures bag - a + (a + multiset{e}) == bag + multiset{e}
  {
  }

  lemma FitsReplace(bins: seq<seq<Entry>>, contents: map<Key, Entry>, kind: HashType, never: Ptr,
                    pos: nat, p: nat, value: Ptr)
    requires Placed(bins) && Agrees(multiset(Flat(bins)), contents, kind, never)
    requires pos < |bins| && p < |bins[pos]| && bins[pos][p].key != never && value != never
    ensures var e := bins[pos][p];
      Fits(bins, pos, bins[pos][p := e.(record := value)],
        contents[KeyOf(kind, e.key) := e.(record := value)], kind, never)
  {
    var chain, bag := bins[pos], multiset(Flat(bins));
    var e := chain[p];
    FlatUpdate(bins, pos, chain);
    ReplaceBag(chain, p, e.(record := value));
    assert e in chain;
    AgreesReplace(bag, contents, kind, never, e, value);
    BagSwap(bag, multiset(chain), e, multiset{e.(record := value)});
  }

  lemma FitsPush(bins: seq<seq<Entry>>, contents: map<Key, Entry>, kind: HashType, never: Ptr, e: Entry)
    requires Placed(bins) && |bins| > 0 && Agrees(multiset(Flat(bins)), contents, kind, never)
    requires KeyOf(kind, e.key) !in contents && e.key != never && e.record != never
    requires e.hash == HashOf(kind, e.key)
    ensures var pos := e.hash % |bins|;
      Fits(bins, pos, [e] + bins[pos], contents[KeyOf(kind, e.key) := e], kind, never)
  {
    var pos, bag := e.hash % |bins|, multiset(Flat(bins));
    FlatUpdate(bins, pos, bins[pos]);
    PushBag(bins[pos], e);
    AgreesAdd(bag, contents, kind, never, e);
    BagPush(bag, multiset(bins[pos]), e);
  }

  lemma FitsDrop(bins: seq<seq<Entry>>, contents: map<Key, Entry>, kind: HashType, never: Ptr, pos: nat, p: nat)
    requires Placed(bins) && Agrees(multiset(Flat(bins)), contents, kind, never)
    requires pos < |bins| && p < |bins[pos]| && bins[pos][p].key != never
    ensures KeyOf(kind, bins[pos][p].key) in contents
    ensures Fits(bins, pos, Without(bins[pos], p), contents - {KeyOf(kind, bins[pos][p].key)}, kind, never)
  {
    var chain, bag := bins[pos], multiset(Flat(bins));
    FlatUpdate(bins, pos, chain);
    WithoutBag(chain, p);
    assert chain[p] in chain;
    AgreesRemove(bag, contents, kind, never, chain[p]);
    BagSwap(bag, multiset(chain), chain[p], multiset{});
  }

  lemma FitsTombstone(bins: seq<seq<Entry>>, contents: map<Key, Entry>, kind: HashType, never: Ptr, pos: nat, p: nat)
    requires Placed(bins) && Agrees(multiset(Flat(bins)), contents, kind, never)
    requires pos < |bins| && p < |bins[pos]| && bins[pos][p].key != never
    ensures KeyOf(kind, bins[pos][p].key) in contents
    ensures Fits(bins, pos, bins[pos][p := bins[pos][p].(key := never, record := never)],
              contents - {KeyOf(kind, bins[pos][p].key)}, kind, never)
  {
    var chain, bag := bins[pos], multiset(Flat(bins));
    var e := chain[p];
    var tomb := e.(key := never, record := never);
    FlatUpdate(bins, pos, chain);
    ReplaceBag(chain, p, tomb);
    assert e in chain;
    AgreesRemove(bag, contents, kind, never, e);
    AgreesTombstone(bag - multiset{e}, contents - {KeyOf(kind, e.key)}, kind, never, tomb);
    BagSwap(bag, multiset(chain), e, multiset{tomb});
  }

  // ------------------------------------------------------------------ density

  lemma DensityBound(n: nat, b: nat)
    requires b >= 1
    ensures n / b > 5 <==> n >= 6 * b
  {
    var q, r := n / b, n % b;
    assert n == b * q + r;
    if q >= 6 {
      MulMonotone(6, q, b);
    } else {
      MulMonotone(q, 5, b);
    }
  }

  /** An int number of entries is too small to fill the largest table. */
  lemma NeverRunsOut(level: nat, n: nat)
    requires level < 28 && n <= INT_MAX && n / Prime(level) > 5
    ensures level < 27
  {
    hide Pow2, Prime;
    PrimeBetween(27);
    Pow2Small();
    DensityBound(n, Prime(level));
  }

  lemma PushOne(bins: seq<seq<Entry>>, e: Entry)
    requires Placed(bins) && |bins| > 0
    ensures var at := e.hash % |bins|;
      && Placed(bins[at := [e] + bins[at]])
      && multiset(Flat(bins[at := [e] + bins[at]])) == multiset(Flat(bins)) + multiset{e}
  {
    var at := e.hash % |bins|;
    FlatUpdate(bins, at, [e] + bins[at]);
    PushBag(bins[at], e);
    PlacedUpdate(bins, at, [e] + bins[at]);
    BagPush(multiset(Flat(bins)), multiset(bins[at]), e);
  }

  /** The map after a store. */
  ghost function Stored(kind: HashType, contents: map<Key, Entry>, key: Ptr, value: Ptr): map<Key, Entry> {
    var c := KeyOf(kind, key);
    contents[c := if c in contents then contents[c].(record := value)
                  else Entry(HashOf(kind, key), key, value)]
  }
}
