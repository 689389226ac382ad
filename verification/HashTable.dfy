/** The hash table of the library: an array of lists, and the hash of a string. */
module HashTable {
  import opened Results
  import opened LinkedList

  // ---- The hash of a string ---------------------------------------------------

  /** A char as unsigned int: where char is signed, bytes from 0x80 on are extended with set bits. */
  function Widen(c: bv8, signed: bool): bv32 {
    if signed && c >= 0x80 then (c as bv32) | 0xffff_ff00 else c as bv32
  }

  const TOP: bv32 := 0xf000_0000

  function FoldTop(v: bv32): bv32 {
    var tmp := v & TOP;
    (v ^ (tmp >> 24)) ^ tmp
  }

  /** The top four bits of the value folded back in. */
  function Fold(v: bv32): bv32 {
    if v & TOP != 0 then FoldTop(v) else v
  }

  /** r has the top four bits of v moved onto the bits from 4 to 7 by exclusive or, and every other bit as it was. */
  predicate IsFold(v: bv32, r: bv32) {
    r & 0xffff_ff0f == v & 0x0fff_ff0f && (r >> 4) & 0xf == ((v >> 4) & 0xf) ^ (v >> 28)
  }

  /** Folding does so whichever branch is taken, and leaves a value below 2^28. */
  lemma FoldBits(v: bv32)
    ensures IsFold(v, Fold(v)) && Fold(v) < 0x1000_0000
  {
    hide IsFold, FoldTop;
    if v & TOP == 0 { NothingToFold(v); } else { TopFolded(v); }
  }

  lemma TopFolded(v: bv32)
    ensures IsFold(v, FoldTop(v)) && FoldTop(v) < 0x1000_0000
  {
  }

  lemma NothingToFold(v: bv32)
    requires v & TOP == 0
    ensures IsFold(v, v) && v < 0x1000_0000
  {
  }

  function ShiftFour(val: bv32): bv32 { val << 4 }

  /** Unsigned addition, which wraps. */
  function Plus(a: bv32, b: bv32): bv32 { a + b }

  function ShiftIn(val: bv32, w: bv32): bv32 { Plus(ShiftFour(val), w) }

  /** One round of ailsa_hash: shift in a character and fold. */
  function HashRound(val: bv32, c: bv8, signed: bool): bv32 {
    Fold(ShiftIn(val, Widen(c, signed)))
  }

  lemma RoundBelow28Bits(val: bv32, c: bv8, signed: bool)
    ensures HashRound(val, c, signed) < 0x1000_0000
  {
    hide Fold, ShiftIn, Widen;
    FoldBits(ShiftIn(val, Widen(c, signed)));
  }

  /** ailsa_hash over the characters before the NUL. */
  function HashOf(key: seq<bv8>, signed: bool): bv32 {
    if key == [] then 0 else HashRound(HashOf(key[..|key| - 1], signed), key[|key| - 1], signed)
  }

  /** The code of a character: where char is signed, bytes from 0x80 on count less 256. */
  function Code(c: bv8, signed: bool): bv32 { (c as bv32) - if signed && c >= 0x80 then 0x100 else 0 }

  function Sixteenfold(v: bv32): bv32 { v * 16 }

  /** Sixteen times a value, and a code. */
  function Append(v: bv32, code: bv32): bv32 { Plus(Sixteenfold(v), code) }

  lemma HashUnfolds(key: seq<bv8>, c: bv8, signed: bool)
    ensures HashOf(key + [c], signed) == HashRound(HashOf(key, signed), c, signed)
  {
    hide HashRound;
    assert (key + [c])[..|key|] == key;
  }

  lemma ShiftAppends(v: bv32, code: bv32)
    ensures ShiftIn(v, code) == Append(v, code)
  {
    hide ShiftFour, Sixteenfold, Plus;
    ShiftIsTimes(v);
  }

  lemma ShiftIsTimes(v: bv32)
    ensures ShiftFour(v) == Sixteenfold(v)
  {
  }

  lemma WidenIsCode(c: bv8, signed: bool)
    ensures Widen(c, signed) == Code(c, signed)
  {
  }

  lemma RoundFolds(v: bv32, c: bv8, signed: bool)
    ensures HashRound(v, c, signed) == Fold(Append(v, Code(c, signed)))
  {
    hide Fold, Widen, Code, Append, ShiftIn;
    WidenIsCode(c, signed);
    ShiftAppends(v, Code(c, signed));
  }

  /** Each character makes the hash sixteen times what it was plus its code, folded. */
  lemma HashStep(key: seq<bv8>, c: bv8, signed: bool)
    ensures IsFold(Append(HashOf(key, signed), Code(c, signed)), HashOf(key + [c], signed))
  {
    hide HashOf, HashRound, IsFold, Fold, Code, Append;
    HashUnfolds(key, c, signed);
    RoundFolds(HashOf(key, signed), c, signed);
    FoldBits(Append(HashOf(key, signed), Code(c, signed)));
  }

  /** The characters as digits to the base 16. */
  function Digits16(key: seq<bv8>): bv32 {
    if key == [] then 0 else Append(Digits16(key[..|key| - 1]), key[|key| - 1] as bv32)
  }

  /** How large that can be for n characters below 0x80. */
  predicate AtMost(v: bv32, n: nat)
    requires n <= 6
  {
    v <= [0, 0x7f, 0x86f, 0x876f, 0x8776f, 0x87776f, 0x877776f][n]
  }

  lemma SmallAppends(v: bv32, code: bv32, n: nat)
    requires n < 6 && AtMost(v, n) && code < 0x80
    ensures Append(v, code) & TOP == 0 && AtMost(Append(v, code), n + 1)
  {
  }

  lemma SmallCode(c: bv8, signed: bool)
    requires c < 0x80
    ensures Code(c, signed) == c as bv32 < 0x80
  {
  }

  lemma NotFolded(v: bv32)
    requires v & TOP == 0
    ensures Fold(v) == v
  {
  }

  lemma NoFold(v: bv32, c: bv8, n: nat, signed: bool)
    requires n < 6 && AtMost(v, n) && c < 0x80
    ensures HashRound(v, c, signed) == Append(v, c as bv32) && AtMost(Append(v, c as bv32), n + 1)
  {
    hide HashRound, Append, Code, Fold, AtMost;
    RoundFolds(v, c, signed);
    SmallCode(c, signed);
    SmallAppends(v, c as bv32, n);
    NotFolded(Append(v, c as bv32));
  }

  lemma NoneAtMost()
    ensures AtMost(0, 0)
  {
  }

  /** Up to six characters below 0x80 are not folded: the hash is their codes times the powers of 16. */
  lemma {:induction false} ShortHash(key: seq<bv8>, signed: bool)
    requires |key| <= 6 && forall i :: 0 <= i < |key| ==> key[i] < 0x80
    ensures HashOf(key, signed) == Digits16(key) && AtMost(Digits16(key), |key|)
  {
    hide HashRound, AtMost, Append;
    if key != [] {
      var n := |key| - 1;
      ShortHash(key[..n], signed);
      NoFold(HashOf(key[..n], signed), key[n], n, signed);
    } else {
      NoneAtMost();
    }
  }

  /** The hash of "hostname", whose last two characters fold, and of a byte that a signed char extends. */
  lemma HashExample(signed: bool)
    ensures HashOf([0x68, 0x6f, 0x73, 0x74, 0x6e, 0x61, 0x6d, 0x65], signed) == 0x6ab_42c5
    ensures HashOf([0x80], true) == 0xfff_ff70 && HashOf([0x80], false) == 0x80
  {
    var key: seq<bv8> := [0x68, 0x6f, 0x73, 0x74, 0x6e, 0x61, 0x6d, 0x65];
    ShortHash(key[..6], signed);
    assert key[..6] == [0x68, 0x6f, 0x73, 0x74, 0x6e, 0x61];
    SixDigits();
    RoundExamples(signed);
    hide HashRound, HashOf, Digits16, AtMost;
    assert key[..6] + [0x6d] == key[..7] && key[..7] + [0x65] == key;
    HashUnfolds(key[..6], 0x6d, signed);
    HashUnfolds(key[..7], 0x65, signed);
    OneCharacter(0x80, true);
    OneCharacter(0x80, false);
  }

  lemma OneCharacter(c: bv8, signed: bool)
    ensures HashOf([c], signed) == HashRound(0, c, signed)
  {
    hide HashRound;
    assert [c][..0] == [];
  }

  lemma RoundExamples(signed: bool)
    ensures HashRound(0x6f6_ab41, 0x6d, signed) == 0xf6a_b41d && HashRound(0xf6a_b41d, 0x65, signed) == 0x6ab_42c5
    ensures HashRound(0, 0x80, true) == 0xfff_ff70 && HashRound(0, 0x80, false) == 0x80
  {
  }

  lemma OneMoreDigit(key: seq<bv8>, c: bv8, v: bv32, w: bv32)
    requires Digits16(key) == v && Append(v, c as bv32) == w
    ensures Digits16(key + [c]) == w
  {
    hide Append;
    assert (key + [c])[..|key|] == key;
  }

  lemma SixDigits()
    ensures Digits16([0x68, 0x6f, 0x73, 0x74, 0x6e, 0x61]) == 0x6f6_ab41
  {
    var key: seq<bv8> := [0x68, 0x6f, 0x73, 0x74, 0x6e, 0x61];
    assert key[..0] == [] && key == key[..6];
    assert forall i :: 0 <= i < 6 ==> key[..i] + [key[i]] == key[..i + 1];
    OneMoreDigit(key[..0], 0x68, 0, 0x68);
    OneMoreDigit(key[..1], 0x6f, 0x68, 0x6ef);
    OneMoreDigit(key[..2], 0x73, 0x6ef, 0x6f63);
    OneMoreDigit(key[..3], 0x74, 0x6f63, 0x6_f6a4);
    OneMoreDigit(key[..4], 0x6e, 0x6_f6a4, 0x6f_6aae);
    OneMoreDigit(key[..5], 0x61, 0x6f_6aae, 0x6f6_ab41);
  }

  /** ailsa_hash: below 2^28 for every string. */
  method Hash(key: seq<bv8>, signed: bool) returns (val: bv32)
    ensures val == HashOf(key, signed) && val < 0x1000_0000
  {
    hide Fold, HashRound;
    val := 0;
    for i := 0 to |key|
      invariant val == HashOf(key[..i], signed) && val < 0x1000_0000
    {
      assert key[..i + 1][..i] == key[..i];
      RoundBelow28Bits(val, key[i], signed);
      val := HashRound(val, key[i], signed);
    }
    assert key[..|key|] == key;
  }

  // ---- The table ----------------------------------------------------------------

  function SumLengths<T>(contents: seq<seq<T>>): nat {
    if contents == [] then 0 else |contents[0]| + SumLengths(contents[1..])
  }

  lemma {:induction false} SumLengthsUpdate<T>(contents: seq<seq<T>>, b: nat, v: seq<T>)
    requires b < |contents|
    ensures SumLengths(contents[b := v]) + |contents[b]| == SumLengths(contents) + |v|
  {
    if b == 0 {
      assert contents[b := v][1..] == contents[1..];
    } else {
      assert contents[b := v][1..] == contents[1..][b - 1 := v];
      SumLengthsUpdate(contents[1..], b - 1, v);
    }
  }

  lemma {:induction false} SumLengthsEmpty<T>(contents: seq<seq<T>>)
    requires forall b :: 0 <= b < |contents| ==> contents[b] == []
    ensures SumLengths(contents) == 0
  {
    if contents != [] { SumLengthsEmpty(contents[1..]); }
  }

  /** The first element that matches, scanning a list from its head. */
  function FirstMatch<T>(s: seq<T>, matches: (T, T) -> bool, data: T): (r: Option<T>)
    ensures r.None? <==> forall i :: 0 <= i < |s| ==> !matches(data, s[i])
    ensures r.Some? ==> r.value in s && matches(data, r.value)
  {
    if s == [] then None else if matches(data, s[0]) then Some(s[0]) else FirstMatch(s[1..], matches, data)
  }

  lemma MatchesItself<T>(matches: (T, T) -> bool, data: T)
    ensures FirstMatch([data], matches, data) == if matches(data, data) then Some(data) else None
  {
  }

  /** Where that element is, and the length when nothing matches. */
  function FirstIndex<T>(s: seq<T>, matches: (T, T) -> bool, data: T): (k: nat)
    ensures k <= |s| && forall i :: 0 <= i < k ==> !matches(data, s[i])
    ensures k < |s| ==> matches(data, s[k]) && FirstMatch(s, matches, data) == Some(s[k])
  {
    if s == [] || matches(data, s[0]) then 0 else 1 + FirstIndex(s[1..], matches, data)
  }

  lemma {:induction false} FirstMatchAt<T>(s: seq<T>, matches: (T, T) -> bool, data: T, m: nat)
    requires m < |s| && matches(data, s[m]) && forall i :: 0 <= i < m ==> !matches(data, s[i])
    ensures FirstMatch(s, matches, data) == Some(s[m])
  {
    if m > 0 { FirstMatchAt(s[1..], matches, data, m - 1); }
  }

  /** The first match is the same without the element before it. */
  lemma FirstMatchWithout<T>(s: seq<T>, matches: (T, T) -> bool, data: T)
    requires 0 < FirstIndex(s, matches, data) < |s|
    ensures FirstMatch(RemoveAt(s, FirstIndex(s, matches, data) - 1), matches, data) == FirstMatch(s, matches, data)
  {
    hide FirstIndex, FirstMatch;
    var k := FirstIndex(s, matches, data);
    FirstMatchAt(RemoveAt(s, k - 1), matches, data, k - 1);
  }

  /** The first element that matches, scanning every bucket in turn. */
  function FirstOfAll<T>(contents: seq<seq<T>>, matches: (T, T) -> bool, data: T): Option<T> {
    if contents == [] then None
    else
      var r := FirstMatch(contents[0], matches, data);
      if r.Some? then r else FirstOfAll(contents[1..], matches, data)
  }

  /** When all that matches is in one bucket, scanning that bucket is scanning everything. */
  lemma {:induction false} OneBucketIsEnough<T>(contents: seq<seq<T>>, matches: (T, T) -> bool, data: T, b: nat)
    requires b < |contents|
    requires forall a, i :: 0 <= a < |contents| && 0 <= i < |contents[a]| && matches(data, contents[a][i]) ==> a == b
    ensures FirstOfAll(contents, matches, data) == FirstMatch(contents[b], matches, data)
  {
    var rest := contents[1..];
    assert forall a :: 0 <= a < |rest| ==> rest[a] == contents[a + 1];
    if b == 0 {
      NothingMatches(rest, matches, data);
    } else {
      OneBucketIsEnough(rest, matches, data, b - 1);
    }
  }

  lemma {:induction false} NothingMatches<T>(contents: seq<seq<T>>, matches: (T, T) -> bool, data: T)
    requires forall a, i :: 0 <= a < |contents| && 0 <= i < |contents[a]| ==> !matches(data, contents[a][i])
    ensures FirstOfAll(contents, matches, data) == None
  {
    if contents != [] {
      var rest := contents[1..];
      assert forall a :: 0 <= a < |rest| ==> rest[a] == contents[a + 1];
      NothingMatches(rest, matches, data);
    }
  }

  /** The first pair whose key falls in bucket b of n. */
  function FirstInBucket<K, T>(pairs: seq<(K, T)>, h: K -> nat, n: nat, b: nat): seq<(K, T)>
    requires n > 0
  {
    if pairs == [] then []
    else
      var r := FirstInBucket(pairs[..|pairs| - 1], h, n, b);
      var last := pairs[|pairs| - 1];
      if r == [] && h(last.0) % n == b then [last] else r
  }

  /** It is there exactly when some key falls in the bucket, and it is then the earliest such pair. */
  lemma {:induction false} FirstInBucketIsEarliest<K, T>(pairs: seq<(K, T)>, h: K -> nat, n: nat, b: nat)
    requires n > 0
    ensures var r := FirstInBucket(pairs, h, n, b);
            && (r == [] <==> forall i :: 0 <= i < |pairs| ==> h(pairs[i].0) % n != b)
            && (r != [] ==> |r| == 1 && h(r[0].0) % n == b
                            && exists i :: 0 <= i < |pairs| && pairs[i] == r[0]
                                           && forall j :: 0 <= j < i ==> h(pairs[j].0) % n != b)
  {
    if pairs != [] {
      var before := pairs[..|pairs| - 1];
      FirstInBucketIsEarliest(before, h, n, b);
      assert forall i :: 0 <= i < |before| ==> before[i] == pairs[i];
      if FirstInBucket(before, h, n, b) == [] && h(pairs[|before|].0) % n == b {
        assert forall j :: 0 <= j < |before| ==> h(before[j].0) % n != b;
      }
    }
  }

  /** A bucket holds one pair or nothing. */
  ghost predicate Holds<K, T>(keys: seq<K>, data: seq<T>, pair: seq<(K, T)>) {
    |keys| == |data| == |pair| <= 1 && (pair != [] ==> pair[0] == (keys[0], data[0]))
  }

  /** Every bucket holds the first pair that fell into it. */
  ghost predicate HoldsFirst<K, T>(keys: seq<seq<K>>, contents: seq<seq<T>>, pairs: seq<(K, T)>, h: K -> nat)
    requires 1 <= |keys| == |contents|
  {
    forall b :: 0 <= b < |keys| ==> Holds(keys[b], contents[b], FirstInBucket(pairs, h, |keys|, b))
  }

  /** Storing a pair when its bucket is empty, and otherwise not, keeps that. */
  lemma HoldsFirstNext<K, T>(keys: seq<seq<K>>, contents: seq<seq<T>>, pairs: seq<(K, T)>, h: K -> nat, p: (K, T))
    requires 1 <= |keys| == |contents| && HoldsFirst(keys, contents, pairs, h)
    ensures var b := h(p.0) % |keys|;
            if contents[b] == [] then HoldsFirst(keys[b := [p.0]], contents[b := [p.1]], pairs + [p], h)
            else HoldsFirst(keys, contents, pairs + [p], h)
  {
    assert (pairs + [p])[..|pairs|] == pairs;
  }

  /** The lists of a new table. */
  method EmptyLists<T>(buckets: nat, destroys: bool) returns (lists: seq<List<T>>)
    ensures |lists| == buckets
    ensures forall b :: 0 <= b < buckets ==>
              fresh(lists[b]) && lists[b].Valid() && lists[b].vals == [] && lists[b].repr == {}
    ensures forall a, b :: 0 <= a < b < buckets ==> lists[a] != lists[b]
  {
    hide Chain, ClosedChain, Distinct;
    lists := [];
    for i := 0 to buckets
      invariant |lists| == i
      invariant forall b :: 0 <= b < i ==>
                  fresh(lists[b]) && lists[b].Valid() && lists[b].vals == [] && lists[b].repr == {}
      invariant forall a, b :: 0 <= a < b < i ==> lists[a] != lists[b]
    {
      var l := new List<T>(destroys);
      lists := lists + [l];
    }
  }

  /** The first element of a list that matches. */
  method Scan<T>(list: List<T>, matches: (T, T) -> bool, data: T) returns (found: Option<T>)
    requires list.Valid()
    ensures found == FirstMatch(list.vals, matches, data)
  {
    hide Chain, ClosedChain, Distinct;
    var em := list.head;
    ghost var i := 0;
    while em != null
      invariant 0 <= i <= list.total && em == if i == list.total then null else list.nodes[i]
      invariant FirstMatch(list.vals, matches, data) == FirstMatch(list.vals[i..], matches, data)
      decreases list.total - i
    {
      list.IndexUnique(em, i);
      list.Neighbours(em);
      list.DataOf(i);
      if matches(data, em.data) {
        return Some(em.data);
      }
      em := em.next;
      i := i + 1;
    }
    return None;
  }

  /** The scan of ailsa_hash_remove: the first match, and the element before it. */
  method ScanWithPrevious<T>(list: List<T>, matches: (T, T) -> bool, data: T)
    returns (em: Elem?<T>, prev: Elem?<T>, ghost k: nat)
    requires list.Valid()
    ensures k == FirstIndex(list.vals, matches, data)
    ensures em == if k == list.total then null else list.nodes[k]
    ensures prev == if k == 0 then null else list.nodes[k - 1]
  {
    hide Chain, ClosedChain, Distinct;
    em, prev, k := list.head, null, 0;
    while em != null
      invariant k <= list.total && em == if k == list.total then null else list.nodes[k]
      invariant prev == if k == 0 then null else list.nodes[k - 1]
      invariant FirstIndex(list.vals, matches, data) == k + FirstIndex(list.vals[k..], matches, data)
      decreases list.total - k
    {
      list.IndexUnique(em, k);
      list.Neighbours(em);
      list.DataOf(k);
      if matches(data, em.data) {
        return;
      }
      prev, em := em, em.next;
      k := k + 1;
    }
  }

  class Table<K, T> {
    const h: K -> nat
    const matches: (T, T) -> bool
    const table: seq<List<T>>
    var size: nat
    ghost var contents: seq<seq<T>>   // the data of each bucket
    ghost var keys: seq<seq<K>>       // the keys they were inserted under
    ghost var Repr: set<object>

    ghost predicate Valid()
      reads this, Repr
    {
      && this in Repr && 1 <= |table| == |contents| == |keys| && size == SumLengths(contents)
      && (forall b :: 0 <= b < |table| ==>
            table[b] in Repr && table[b].repr <= Repr && table[b].Valid() && table[b].vals == contents[b])
      && (forall a, b :: 0 <= a < b < |table| ==> table[a] != table[b] && table[a].repr !! table[b].repr)
      && (forall b :: 0 <= b < |table| ==> |keys[b]| == |contents[b]|)
      && (forall b, i :: 0 <= b < |table| && 0 <= i < |keys[b]| ==> Bucket(keys[b][i]) == b)
    }

    function Bucket(key: K): (b: nat)
      requires 1 <= |table|
      ensures b < |table|
    {
      h(key) % |table|
    }

    /** Whatever matches the datum was stored under a key with the same hash. */
    ghost predicate Coherent(data: T, key: K)
      requires Valid()
      reads this, Repr
    {
      forall b, i :: 0 <= b < |table| && 0 <= i < |contents[b]| && matches(data, contents[b][i]) ==>
        h(keys[b][i]) == h(key)
    }

    /** ailsa_hash_init */
    constructor (buckets: nat, h: K -> nat, matches: (T, T) -> bool, destroys: bool)
      requires buckets > 0
      ensures Valid() && fresh(Repr) && size == 0 && |table| == buckets && this.h == h && this.matches == matches
      ensures forall b :: 0 <= b < buckets ==> contents[b] == [] && keys[b] == []
    {
      hide Chain, ClosedChain, Distinct, SumLengths;
      var lists := EmptyLists<T>(buckets, destroys);
      this.h, this.matches, table, size := h, matches, lists, 0;
      contents, keys := seq(buckets, _ => []), seq(buckets, _ => []);
      Repr := {this};
      Repr := Repr + (set l: List<T> | l in lists);
      new;
      SumLengthsEmpty(contents);
    }

    /** ailsa_hash_lookup: the first match in the key's bucket. It is the first match of the whole table whenever
        matching data have equal hashes. */
    method Lookup(data: T, key: K) returns (r: int, found: Option<T>)
      requires Valid()
      ensures found == FirstMatch(contents[Bucket(key)], matches, data)
      ensures r == if found.Some? then 0 else -1
      ensures Coherent(data, key) ==> found == FirstOfAll(contents, matches, data)
    {
      var bucket := h(key) % |table|;
      if Coherent(data, key) { OneBucketIsEnough(contents, matches, data, bucket); }
      hide Chain, ClosedChain, Distinct, FirstMatch, FirstOfAll, SumLengths;
      found := Scan(table[bucket], matches, data);
      r := if found.Some? then 0 else -1;
    }

    /** The list insertion, with no anchor, in one bucket: it leaves the other buckets alone. */
    method InsertFirst(bucket: nat, data: T) returns (r: int)
      requires Valid() && bucket < |table|
      modifies table[bucket], table[bucket].repr
      ensures r == if contents[bucket] == [] then 0 else -1
      ensures fresh(table[bucket].repr - old(table[bucket].repr))
      ensures r != 0 ==> table[bucket].repr == old(table[bucket].repr)
      ensures table[bucket].Valid() && table[bucket].vals == if r == 0 then [data] else contents[bucket]
      ensures forall b :: 0 <= b < |table| && b != bucket ==>
                table[b].Valid() && table[b].vals == contents[b] && table[b].repr == old(table[b].repr)
    {
      hide Chain, ClosedChain, Distinct, InsertAt, SumLengths;
      r := table[bucket].InsNext(null, data);
    }

    /** Counting what a change of one bucket has added or taken. */
    method Recount(bucket: nat, change: int, ghost now: seq<T>, ghost nowKeys: seq<K>)
      requires this in Repr && 1 <= |table| == |contents| == |keys| && size == SumLengths(contents)
      requires bucket < |table| && |nowKeys| == |now| == |contents[bucket]| + change
      requires forall i :: 0 <= i < |nowKeys| ==> Bucket(nowKeys[i]) == bucket
      requires forall b :: 0 <= b < |table| ==> table[b] in Repr && (b != bucket ==> table[b].repr <= Repr)
      requires forall b :: 0 <= b < |table| ==>
                 table[b].Valid() && table[b].vals == if b == bucket then now else contents[b]
      requires forall a, b :: 0 <= a < b < |table| ==> table[a] != table[b] && table[a].repr !! table[b].repr
      requires forall b :: 0 <= b < |table| ==> |keys[b]| == |contents[b]|
      requires forall b, i :: 0 <= b < |table| && 0 <= i < |keys[b]| ==> Bucket(keys[b][i]) == b
      modifies `size, `contents, `keys, `Repr
      ensures Valid() && Repr == old(Repr) + table[bucket].repr && size == old(size) + change
      ensures contents == old(contents)[bucket := now] && keys == old(keys)[bucket := nowKeys]
    {
      hide Chain, ClosedChain, Distinct, SumLengths;
      SumLengthsUpdate(contents, bucket, now);
      size := size + change;
      contents, keys := contents[bucket := now], keys[bucket := nowKeys];
      Repr := Repr + table[bucket].repr;
    }

    /** Storing in a bucket: only an empty one takes the datum. */
    method Store(bucket: nat, data: T, ghost key: K) returns (r: int)
      requires Valid() && bucket == Bucket(key)
      modifies this, Repr
      ensures Valid() && fresh(Repr - old(Repr)) && r == if old(contents)[bucket] == [] then 0 else -1
      ensures contents == if r == 0 then old(contents)[bucket := [data]] else old(contents)
      ensures keys == if r == 0 then old(keys)[bucket := [key]] else old(keys)
      ensures size == old(size) + if r == 0 then 1 else 0
    {
      hide Chain, ClosedChain, Distinct, InsertAt, SumLengths;
      r := InsertFirst(bucket, data);
      if r == 0 {
        Recount(bucket, 1, [data], [key]);
      }
    }

    /** ailsa_hash_insert. The list insertion is called with no anchor, so it is refused by every bucket that
        already holds something. */
    method Insert(data: T, key: K) returns (r: int)
      requires Valid()
      modifies this, Repr
      ensures Valid() && fresh(Repr - old(Repr))
      ensures var b := Bucket(key); var bucket := old(contents)[b];
              && r == (if FirstMatch(bucket, matches, data).Some? then 1 else if bucket == [] then 0 else -1)
              && contents == (if r == 0 then old(contents)[b := [data]] else old(contents))
              && keys == (if r == 0 then old(keys)[b := [key]] else old(keys))
              && size == old(size) + if r == 0 then 1 else 0
      ensures matches(data, data) ==> (FirstMatch(contents[Bucket(key)], matches, data).Some? <==> r != -1)
    {
      hide Chain, ClosedChain, Distinct, FirstMatch, SumLengths, Coherent;
      var found;
      r, found := Lookup(data, key);
      if r == 0 {
        return 1;
      }
      r := Store(h(key) % |table|, data, key);
      MatchesItself(matches, data);
    }

    /** The list removal of the element before the first match: its predecessor, or nothing. */
    method RemoveBefore(bucket: nat, prev: Elem?<T>, ghost k: nat) returns (r: int, removed: Option<T>)
      requires Valid() && bucket < |table| && k < |contents[bucket]|
      requires prev == if k == 0 then null else table[bucket].nodes[k - 1]
      modifies table[bucket], table[bucket].repr
      ensures r == if k == 0 then -1 else 0
      ensures removed == if k == 0 then None else Some(contents[bucket][k - 1])
      ensures table[bucket].repr == old(table[bucket].repr) && table[bucket].Valid()
      ensures table[bucket].vals == if k == 0 then contents[bucket] else RemoveAt(contents[bucket], k - 1)
      ensures forall b :: 0 <= b < |table| && b != bucket ==>
                table[b].Valid() && table[b].vals == contents[b] && table[b].repr == old(table[b].repr)
    {
      hide Chain, ClosedChain, Distinct, RemoveAt, SumLengths;
      if prev != null { table[bucket].IndexUnique(prev, k - 1); }
      r, removed := table[bucket].Remove(prev);
    }

    lemma KeysStay(bucket: nat, k: nat)
      requires 1 <= |table| && bucket < |keys| && k < |keys[bucket]|
      requires forall i :: 0 <= i < |keys[bucket]| ==> Bucket(keys[bucket][i]) == bucket
      ensures forall i :: 0 <= i < |keys[bucket]| - 1 ==> Bucket(RemoveAt(keys[bucket], k)[i]) == bucket
    {
      hide Bucket;
    }

    /** Removing from a bucket, with the count. */
    method Drop(bucket: nat, prev: Elem?<T>, ghost k: nat) returns (removed: Option<T>)
      requires Valid() && bucket < |table| && k < |contents[bucket]|
      requires prev == if k == 0 then null else table[bucket].nodes[k - 1]
      modifies this, Repr
      ensures Valid() && Repr == old(Repr) && size == old(size) - if k == 0 then 0 else 1
      ensures removed == if k == 0 then None else Some(old(contents)[bucket][k - 1])
      ensures contents == if k == 0 then old(contents)
                          else old(contents)[bucket := RemoveAt(old(contents)[bucket], k - 1)]
      ensures keys == if k == 0 then old(keys) else old(keys)[bucket := RemoveAt(old(keys)[bucket], k - 1)]
    {
      hide Chain, ClosedChain, Distinct, RemoveAt, SumLengths;
      var r;
      r, removed := RemoveBefore(bucket, prev, k);
      if r == 0 {
        KeysStay(bucket, k - 1);
        Recount(bucket, -1, RemoveAt(contents[bucket], k - 1), RemoveAt(keys[bucket], k - 1));
      }
    }

    lemma Shape(bucket: nat)
      requires Valid() && bucket < |table|
      ensures this in Repr && |table| == |contents| == |keys| && |keys[bucket]| == |contents[bucket]|
      ensures table[bucket].Valid() && table[bucket].vals == contents[bucket]
    {
    }

    /** ailsa_hash_remove. What it hands to the list removal is the element before the match, so the match itself is
        never removed: its predecessor in the bucket is, and when there is none nothing is. */
    method Remove(data: T, key: K) returns (r: int, removed: Option<T>)
      requires Valid()
      modifies this, Repr
      ensures Valid() && Repr == old(Repr)
      ensures var b, bucket := Bucket(key), old(contents)[Bucket(key)];
              var k := FirstIndex(bucket, matches, data);
              && r == (if k == |bucket| then -1 else if k == 0 then 1 else 0)
              && removed == (if r == 0 then Some(bucket[k - 1]) else None)
              && contents == (if r == 0 then old(contents)[b := RemoveAt(bucket, k - 1)] else old(contents))
              && keys == (if r == 0 then old(keys)[b := RemoveAt(old(keys)[b], k - 1)] else old(keys))
              && size == old(size) - if r == 0 then 1 else 0
      ensures FirstMatch(contents[Bucket(key)], matches, data) == old(FirstMatch(contents[Bucket(key)], matches, data))
    {
      hide Chain, ClosedChain, Distinct, RemoveAt, SumLengths, FirstIndex, FirstMatch;
      var bucket := h(key) % |table|;
      Shape(bucket);
      assert bucket == Bucket(key);
      hide Valid, Bucket;
      var em, prev;
      ghost var k;
      em, prev, k := ScanWithPrevious(table[bucket], matches, data);
      if em == null {
        return -1, None;
      }
      if 0 < k { FirstMatchWithout(contents[bucket], matches, data); }
      removed := Drop(bucket, prev, k);
      r := if removed.Some? then 0 else 1;
    }

    /** Any number of insertions into an empty table: of the pairs whose keys share a bucket only the first is
        stored, and the others are refused. */
    method InsertAll(pairs: seq<(K, T)>)
      requires Valid() && forall b :: 0 <= b < |table| ==> contents[b] == []
      modifies this, Repr
      ensures Valid()
      ensures HoldsFirst(keys, contents, pairs, h)
    {
      assert HoldsFirst(keys, contents, [], h);
      hide Chain, ClosedChain, Distinct, InsertAt, FirstMatch, SumLengths, Coherent, HoldsFirst;
      var i := 0;
      while i < |pairs|
        invariant 0 <= i <= |pairs| && Valid() && fresh(Repr - old(Repr))
        invariant HoldsFirst(keys, contents, pairs[..i], h)
      {
        assert pairs[..i] + [pairs[i]] == pairs[..i + 1];
        HoldsFirstNext(keys, contents, pairs[..i], h, pairs[i]);
        var r := Insert(pairs[i].1, pairs[i].0);
        i := i + 1;
      }
      assert pairs[..i] == pairs;
    }

    /** What the table holds after insertions is among the pairs inserted. */
    lemma StoredPair(pairs: seq<(K, T)>, b: nat, i: nat) returns (at: nat)
      requires Valid() && HoldsFirst(keys, contents, pairs, h) && b < |table| && i < |contents[b]|
      ensures at < |pairs| && pairs[at] == (keys[b][i], contents[b][i])
    {
      hide Chain, ClosedChain, Distinct, SumLengths, FirstInBucket;
      FirstInBucketIsEarliest(pairs, h, |table|, b);
      at :| 0 <= at < |pairs| && pairs[at] == FirstInBucket(pairs, h, |table|, b)[0];
    }

    /** When matching data have equal hashes among the pairs inserted, a lookup after the insertions finds the first
        match of the whole table. */
    lemma InsertedCoherent(pairs: seq<(K, T)>, data: T, key: K)
      requires Valid() && HoldsFirst(keys, contents, pairs, h)
      requires forall i :: 0 <= i < |pairs| && matches(data, pairs[i].1) ==> h(pairs[i].0) == h(key)
      ensures Coherent(data, key)
      ensures FirstMatch(contents[Bucket(key)], matches, data) == FirstOfAll(contents, matches, data)
    {
      forall b, i | 0 <= b < |table| && 0 <= i < |contents[b]| && matches(data, contents[b][i])
        ensures h(keys[b][i]) == h(key) && b == Bucket(key)
      {
        var at := StoredPair(pairs, b, i);
      }
      hide Chain, ClosedChain, Distinct, SumLengths, HoldsFirst, FirstMatch, FirstOfAll;
      OneBucketIsEnough(contents, matches, data, Bucket(key));
    }

    /** And a removal after the insertions never removes: a match is alone in its bucket. */
    lemma InsertedStays(pairs: seq<(K, T)>, data: T, key: K)
      requires Valid() && HoldsFirst(keys, contents, pairs, h)
      ensures var bucket := contents[Bucket(key)];
              FirstIndex(bucket, matches, data) == 0 || FirstIndex(bucket, matches, data) == |bucket|
    {
      hide Chain, ClosedChain, Distinct, SumLengths, FirstInBucket, FirstIndex;
      assert Holds(keys[Bucket(key)], contents[Bucket(key)], FirstInBucket(pairs, h, |keys|, Bucket(key)));
    }
  }
}
