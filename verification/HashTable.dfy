/**
 The chained hash table of CFCore/include/CF/HashTable.h with the string hash
 of CFCore/Ref.cpp.  Entries are linked through their next fields; a ghost
 sequence spells out each chain from the head.
 */
module HashTables {

  import opened Bytes
  import opened Sequences

  const WORD: nat := 0x1_0000_0000

  // ------------------------------------------------------- index arithmetic

  /** Bitwise and of two natural numbers, from the low bit up. */
  function BitAnd(a: nat, b: nat): (r: nat) {
    if a == 0 || b == 0 then 0 else 2 * BitAnd(a / 2, b / 2) + (if a % 2 == 1 && b % 2 == 1 then 1 else 0)
  }

  /** fMask as the constructor sets it: size - 1 for a power of two, else 0. */
  function MaskFor(size: nat): (r: nat)
    requires size > 0
  {
    if BitAnd(size - 1, size) != 0 then 0 else size - 1
  }

  function ComputeIndex(hash: nat, mask: nat, size: nat): (r: nat)
    requires size > 0
  {
    if mask != 0 then BitAnd(hash, mask) else hash % size
  }

  lemma {:induction false} BitAndSelf(a: nat)
    ensures BitAnd(a, a) == a
  {
    if a > 0 {
      BitAndSelf(a / 2);
    }
  }

  lemma OddFailsTest(size: nat)
    ensures size % 2 == 1 && size > 1 ==> BitAnd(size - 1, size) != 0
  {
    BitAndSelf(size / 2);
  }

  /** Where the constructor's test passes, masking is the remainder. */
  lemma {:induction false} MaskIsModulo(hash: nat, size: nat)
    requires size > 0 && BitAnd(size - 1, size) == 0
    ensures BitAnd(hash, size - 1) == hash % size
    decreases size
  {
    OddFailsTest(size);
    if size > 1 {
      var m := size / 2;
      assert (size - 1) / 2 == m - 1;
      assert BitAnd(m - 1, m) == 0;
      MaskIsModulo(hash / 2, m);
      HalveRemainder(hash, m);
    }
  }

  lemma HalveRemainder(h: nat, m: nat)
    requires m > 0
    ensures h % (2 * m) == 2 * ((h / 2) % m) + h % 2
  {
    var q, x := (h / 2) / m, (h / 2) % m;
    assert h / 2 == m * q + x;
    assert h == (2 * m) * q + (2 * x + h % 2) by {
      assert 2 * (m * q) == (2 * m) * q;
    }
    RemainderUnique(h, 2 * m, q, 2 * x + h % 2);
  }

  lemma MultipleGap(d: int, e: int)
    requires d > 0
    ensures (e >= 1 ==> d * e >= d) && (e <= -1 ==> d * e <= -d)
  {
  }

  lemma RemainderUnique(h: nat, d: nat, q: int, x: nat)
    requires d > 0 && h == d * q + x && x < d
    ensures h % d == x
  {
    var e := q - h / d;
    assert d * e == h % d - x by {
      assert d * e == d * q - d * (h / d);
    }
    MultipleGap(d, e);
  }

  function Power(k: nat): (r: nat)
    ensures r > 0
  {
    if k == 0 then 1 else 2 * Power(k - 1)
  }

  lemma {:induction false} PowerPasses(k: nat)
    ensures BitAnd(Power(k) - 1, Power(k)) == 0
  {
    if k > 0 {
      var h := Power(k - 1);
      PowerPasses(k - 1);
      assert (Power(k) - 1) / 2 == h - 1 && Power(k) / 2 == h;
    }
  }

  lemma {:induction false} PassesIsPower(size: nat) returns (k: nat)
    requires size > 0 && BitAnd(size - 1, size) == 0
    ensures size == Power(k)
  {
    OddFailsTest(size);
    if size == 1 {
      k := 0;
      assert Power(0) == 1;
    } else {
      var h := size / 2;
      assert (size - 1) / 2 == h - 1;
      k := PassesIsPower(h);
      k := k + 1;
      assert Power(k) == 2 * Power(k - 1);
    }
  }

  /** The constructor's test tells the powers of two; they alone get a mask. */
  lemma MaskForExactly(size: nat)
    requires size > 0
    ensures MaskFor(size) == if exists k :: size == Power(k) then size - 1 else 0
  {
    if BitAnd(size - 1, size) == 0 {
      var k := PassesIsPower(size);
    }
    if k :| size == Power(k) {
      PowerPasses(k);
    }
  }

  /** The mask shortcut agrees with the remainder for every table size. */
  lemma IndexIsModulo(hash: nat, size: nat)
    requires size > 0
    ensures ComputeIndex(hash, MaskFor(size), size) == hash % size
  {
    if MaskFor(size) != 0 {
      MaskIsModulo(hash, size);
    }
  }

  /** RefTableUtils::HashString: the length times the bytes at the quarter points. */
  function HashString(s: seq<Byte>): (h: nat)
    ensures h < WORD
  {
    if |s| == 0 then 0
    else
      var q := |s| / 4;
      (|s| * (s[0] as int + s[q] as int + s[2 * q] as int + s[3 * q] as int + s[|s| - 1] as int)) % WORD
  }

  /** Of eight bytes it takes those at 0, 2, 4, 6 and 7, of one byte that one five
      times, and an empty string gives 0. */
  lemma HashOfEight(s: seq<Byte>)
    requires |s| == 8
    ensures HashString(s) == 8 * (s[0] as int + s[2] as int + s[4] as int + s[6] as int + s[7] as int)
    ensures HashString(s[..1]) == 5 * s[0] as int && HashString(s[..0]) == 0
  {
  }

  // ------------------------------------------------------------------ chains

  /** A table entry.  Entries are told apart by identity, not by key. */
  class Entry {
    const key: seq<Byte>
    const hash: nat
    var next: Entry?                       // fNextHashEntry

    constructor (key: seq<Byte>)
      ensures this.key == key && hash == HashString(key) && next == null
    {
      this.key := key;
      this.hash := HashString(key);
      next := null;
    }
  }

  ghost predicate Distinct(c: seq<Entry>) {
    forall i, j | 0 <= i < j < |c| :: c[i] != c[j]
  }

  /** Every entry of all sits in exactly one chain, once. */
  ghost predicate Filed(chains: seq<seq<Entry>>, all: set<Entry>) {
    && (forall b, i | 0 <= b < |chains| && 0 <= i < |chains[b]| ::
          chains[b][i] in all && chains[b][i].hash % |chains| == b)
    && (forall e | e in all :: |chains| > 0 && e in chains[e.hash % |chains|])
    && (forall b | 0 <= b < |chains| :: Distinct(chains[b]))
  }

  lemma FiledAdd(chains: seq<seq<Entry>>, all: set<Entry>, e: Entry)
    requires Filed(chains, all) && e !in all && |chains| > 0
    ensures var b := e.hash % |chains|; Filed(chains[b := [e] + chains[b]], all + {e})
  {
  }

  lemma FiledRemove(chains: seq<seq<Entry>>, all: set<Entry>, b: nat, k: nat)
    requires Filed(chains, all) && b < |chains| && k < |chains[b]|
    ensures Filed(chains[b := Omit(chains[b], k)], all - {chains[b][k]})
  {
  }

  // ------------------------------------------------------------------- links

  type Links = map<Entry, Entry?>

  function Head(c: seq<Entry>): (r: Entry?) {
    if c == [] then null else c[0]
  }

  function After(c: seq<Entry>, i: nat): (r: Entry?) {
    if i + 1 < |c| then c[i + 1] else null
  }

  /** The heads and the next links spell out the chains. */
  ghost predicate Linked(heads: seq<Entry?>, chains: seq<seq<Entry>>, links: Links) {
    && |heads| == |chains| && (forall b | 0 <= b < |chains| :: heads[b] == Head(chains[b]))
    && forall b, i: nat | 0 <= b < |chains| && i < |chains[b]| ::
         chains[b][i] in links && links[chains[b][i]] == After(chains[b], i)
  }

  /** Filed and Linked, kept folded. */
  ghost predicate InPlace(chains: seq<seq<Entry>>, all: set<Entry>) {
    forall c {:trigger Filed(c, all)} | c == chains :: Filed(c, all)
  }

  ghost predicate Spelled(heads: seq<Entry?>, chains: seq<seq<Entry>>, links: Links) {
    forall c {:trigger Linked(heads, c, links)} | c == chains :: Linked(heads, c, links)
  }

  lemma PlaceAdd(chains: seq<seq<Entry>>, all: set<Entry>, e: Entry)
    requires InPlace(chains, all) && e !in all && |chains| > 0
    ensures var b := e.hash % |chains|; InPlace(chains[b := [e] + chains[b]], all + {e})
  {
    assert Filed(chains, all);
    FiledAdd(chains, all, e);
  }

  lemma PlaceRemove(chains: seq<seq<Entry>>, all: set<Entry>, b: nat, k: nat)
    requires InPlace(chains, all) && b < |chains| && k < |chains[b]|
    ensures InPlace(chains[b := Omit(chains[b], k)], all - {chains[b][k]}) && chains[b][k] in all
  {
    assert Filed(chains, all);
    FiledRemove(chains, all, b, k);
  }

  lemma SpellAdd(heads: seq<Entry?>, chains: seq<seq<Entry>>, links: Links, e: Entry, b: nat)
    requires Spelled(heads, chains, links) && e !in links && b < |chains| && |heads| == |chains|
    ensures Spelled(heads[b := e], chains[b := [e] + chains[b]], links[e := heads[b]])
  {
    assert Linked(heads, chains, links);
    LinkedAdd(heads, chains, links, e, b);
  }

  lemma SpellRemove(heads: seq<Entry?>, chains: seq<seq<Entry>>, links: Links, all: set<Entry>, b: nat, k: nat)
    requires Spelled(heads, chains, links) && InPlace(chains, all) && |heads| == |chains| && b < |chains|
    requires k < |chains[b]|
    ensures chains[b][k] in links && (k > 0 ==> chains[b][k - 1] in links && chains[b][k - 1] != chains[b][k])
    ensures var c := chains[b];
            Spelled(if k == 0 then heads[b := links[c[k]]] else heads,
                    chains[b := Omit(c, k)], Relinked(links, c, k))
  {
    assert Linked(heads, chains, links) && Filed(chains, all);
    LinkedRemove(heads, chains, links, all, b, k);
  }

  lemma SpellAt(heads: seq<Entry?>, chains: seq<seq<Entry>>, links: Links, b: nat)
    requires Spelled(heads, chains, links) && |heads| == |chains| && b < |chains|
    ensures heads[b] == Head(chains[b])
    ensures forall i: nat | i < |chains[b]| :: chains[b][i] in links && links[chains[b][i]] == After(chains[b], i)
  {
    assert Linked(heads, chains, links);
  }

  lemma PlaceAt(chains: seq<seq<Entry>>, all: set<Entry>, b: nat)
    requires InPlace(chains, all) && b < |chains|
    ensures Distinct(chains[b]) && forall i | 0 <= i < |chains[b]| :: chains[b][i] in all
    ensures forall e | e in all && e.hash % |chains| == b :: e in chains[b]
  {
    assert Filed(chains, all);
  }

  lemma LinkedAdd(heads: seq<Entry?>, chains: seq<seq<Entry>>, links: Links, e: Entry, b: nat)
    requires Linked(heads, chains, links) && e !in links && b < |chains|
    ensures Linked(heads[b := e], chains[b := [e] + chains[b]], links[e := heads[b]])
  {
  }

  /** The links after entry k of chain b is taken out. */
  function Relinked(links: Links, c: seq<Entry>, k: nat): (r: Links)
    requires k < |c| && c[k] in links
  {
    (if k > 0 then links[c[k - 1] := links[c[k]]] else links) - {c[k]}
  }

  lemma AfterOmit(c: seq<Entry>, k: nat, i: nat)
    requires k < |c| && i < |c| - 1
    ensures Omit(c, k)[i] == c[if i < k then i else i + 1]
    ensures After(Omit(c, k), i) == if i + 1 == k then After(c, k) else After(c, if i < k then i else i + 1)
  {
  }

  lemma OwnChain(c: seq<Entry>, links: Links, k: nat, i: nat)
    requires Distinct(c) && k < |c| && i < |c| - 1
    requires forall j: nat | j < |c| :: c[j] in links && links[c[j]] == After(c, j)
    ensures var w, next := Omit(c, k), Relinked(links, c, k); w[i] in next && next[w[i]] == After(w, i)
  {
    AfterOmit(c, k, i);
    var j := if i < k then i else i + 1;
    assert c[j] != c[k] && (k > 0 && j != k - 1 ==> c[j] != c[k - 1]);
  }

  lemma LinkedRemove(heads: seq<Entry?>, chains: seq<seq<Entry>>, links: Links, all: set<Entry>, b: nat, k: nat)
    requires Linked(heads, chains, links) && Filed(chains, all) && b < |chains| && k < |chains[b]|
    ensures var c := chains[b];
            Linked(if k == 0 then heads[b := links[c[k]]] else heads, chains[b := Omit(c, k)], Relinked(links, c, k))
  {
    LinksRemoved(heads, chains, links, all, b, k);
    HeadRemoved(chains[b], k);
    assert links[chains[b][k]] == After(chains[b], k);
  }

  lemma HeadRemoved(c: seq<Entry>, k: nat)
    requires k < |c|
    ensures Head(Omit(c, k)) == if k == 0 then After(c, k) else Head(c)
  {
  }

  lemma LinksRemoved(heads: seq<Entry?>, chains: seq<seq<Entry>>, links: Links, all: set<Entry>, b: nat, k: nat)
    requires Linked(heads, chains, links) && Filed(chains, all) && b < |chains| && k < |chains[b]|
    ensures var now, next := chains[b := Omit(chains[b], k)], Relinked(links, chains[b], k);
            forall x, i: nat | 0 <= x < |now| && i < |now[x]| ::
              now[x][i] in next && next[now[x][i]] == After(now[x], i)
  {
    var now, next := chains[b := Omit(chains[b], k)], Relinked(links, chains[b], k);
    forall x, i: nat | 0 <= x < |now| && i < |now[x]|
      ensures now[x][i] in next && next[now[x][i]] == After(now[x], i)
    {
      LinkAt(heads, chains, links, all, b, k, x, i);
    }
  }

  lemma LinkAt(heads: seq<Entry?>, chains: seq<seq<Entry>>, links: Links, all: set<Entry>, b: nat, k: nat, x: nat,
               i: nat)
    requires Linked(heads, chains, links) && Filed(chains, all) && b < |chains| && k < |chains[b]| && x < |chains|
    requires i < |if x == b then Omit(chains[b], k) else chains[x]|
    ensures var d, next := if x == b then Omit(chains[b], k) else chains[x], Relinked(links, chains[b], k);
            d[i] in next && next[d[i]] == After(d, i)
  {
    if x == b {
      OwnChain(chains[b], links, k, i);
    } else {
      OtherLink(chains, links, all, x, b, i, k);
    }
  }

  lemma OtherLink(chains: seq<seq<Entry>>, links: Links, all: set<Entry>, x: nat, b: nat, i: nat, k: nat)
    requires Filed(chains, all) && x < |chains| && b < |chains| && x != b && i < |chains[x]| && k < |chains[b]|
    requires chains[b][k] in links && chains[x][i] in links
    ensures var e, next := chains[x][i], Relinked(links, chains[b], k); e in next && next[e] == links[e]
  {
    OtherChain(chains, all, x, b, i, k);
    if k > 0 {
      OtherChain(chains, all, x, b, i, k - 1);
    }
  }

  lemma OtherChain(chains: seq<seq<Entry>>, all: set<Entry>, x: nat, b: nat, i: nat, k: nat)
    requires Filed(chains, all) && x < |chains| && b < |chains| && x != b && i < |chains[x]| && k < |chains[b]|
    ensures chains[x][i] != chains[b][k]
  {
    assert chains[x][i].hash % |chains| == x && chains[b][k].hash % |chains| == b;
  }

  /** The first entry of a chain that has the key. */
  function Lookup(c: seq<Entry>, key: seq<Byte>): (r: Entry?) {
    if c == [] then null else if c[0].key == key then c[0] else Lookup(c[1..], key)
  }

  lemma {:induction false} LookupFinds(c: seq<Entry>, key: seq<Byte>)
    ensures Lookup(c, key) == null <==> forall e | e in c :: e.key != key
    ensures Lookup(c, key) != null ==> Lookup(c, key) in c && Lookup(c, key).key == key
  {
    if c != [] {
      LookupFinds(c[1..], key);
      assert c == [c[0]] + c[1..];
    }
  }

  ghost predicate UniqueKeys(all: set<Entry>) {
    forall e, f | e in all && f in all && e.key == f.key :: e == f
  }

  /** A set of entries as a dictionary, while keys are unique. */
  ghost function Dictionary(all: set<Entry>): (m: map<seq<Byte>, Entry>)
    requires UniqueKeys(all)
  {
    map e | e in all :: e.key := e
  }

  /** Adding an entry with a new key extends the dictionary. */
  lemma DictionaryAdd(all: set<Entry>, e: Entry)
    requires UniqueKeys(all) && e.key !in Dictionary(all)
    ensures UniqueKeys(all + {e}) && Dictionary(all + {e}) == Dictionary(all)[e.key := e]
  {
    var d := Dictionary(all);
    assert forall f | f in all :: f.key in d && f.key != e.key;
    assert UniqueKeys(all + {e});
    var x := Dictionary(all + {e});
    assert forall f | f in all :: f.key in x && x[f.key] == f && d[f.key] == f;
    assert e in all + {e} && x[e.key] == e;
  }

  /** Removing an entry removes its key. */
  lemma DictionaryRemove(all: set<Entry>, e: Entry)
    requires UniqueKeys(all) && e in all
    ensures UniqueKeys(all - {e}) && Dictionary(all - {e}) == Dictionary(all) - {e.key}
  {
  }

  /** fNumEntries counts the keys. */
  lemma {:induction false} DictionarySize(all: set<Entry>)
    requires UniqueKeys(all)
    ensures |Dictionary(all)| == |all|
  {
    if all == {} {
      assert Dictionary(all) == map[];
    } else {
      var e :| e in all;
      DictionaryRemove(all, e);
      DictionarySize(all - {e});
      assert Dictionary(all) == Dictionary(all - {e})[e.key := e];
    }
  }

  /** now is before without entry e of chain b. */
  ghost predicate Cut(before: seq<seq<Entry>>, now: seq<seq<Entry>>, b: nat, e: Entry) {
    b < |before| && exists k :: 0 <= k < |before[b]| && before[b][k] == e && now == before[b := Omit(before[b], k)]
  }

  lemma CutAt(before: seq<seq<Entry>>, b: nat, k: nat)
    requires b < |before| && k < |before[b]|
    ensures Cut(before, before[b := Omit(before[b], k)], b, before[b][k])
  {
  }

  class HashTable {
    const size: nat
    const mask: nat
    const heads: array<Entry?>             // fHashTable
    var numEntries: nat

    ghost var all: set<Entry>
    ghost var chains: seq<seq<Entry>>      // the entries of each bucket, from the head
    ghost var links: Links                 // the next link of every entry

    ghost predicate Valid()
      reads this, heads, links.Keys`next
    {
      Ledger() && Pointers()
    }

    /** What is in the table, and where. */
    ghost predicate Ledger()
      reads this`numEntries, this`all, this`chains, this`links
    {
      && size > 0 && mask == MaskFor(size) && |chains| == size
      && InPlace(chains, all) && numEntries == |all| && links.Keys == all
      && (forall e | e in all :: e.hash == HashString(e.key))
    }

    /** The heads and the next fields are those of the chains. */
    ghost predicate Pointers()
      reads this`chains, this`links, heads, links.Keys`next
    {
      heads.Length == size == |chains| && Spelled(heads[..], chains, links) && Shown()
    }

    ghost predicate Shown()
      reads this`links, links.Keys`next
    {
      forall e | e in links :: e.next == links[e]
    }

    constructor (size: nat)
      requires size > 0
      ensures Valid() && this.size == size && all == {} && fresh(heads)
    {
      this.size := size;
      this.mask := MaskFor(size);
      heads := new Entry?[size](_ => null);
      numEntries := 0;
      all, chains, links := {}, seq(size, _ => []), map[];
    }

    method IndexOf(hash: nat) returns (index: nat)
      requires size > 0 && mask == MaskFor(size)
      ensures index == hash % size && index < size
    {
      IndexIsModulo(hash, size);
      index := ComputeIndex(hash, mask, size);
    }

    /** Add: e becomes the head of its chain. */
    method Add(e: Entry)
      requires Valid() && e !in all && e.hash == HashString(e.key) && e.next == null
      modifies this, heads, e`next
      ensures Valid() && all == old(all) + {e} && numEntries == old(numEntries) + 1
      ensures chains == var b := e.hash % size; old(chains)[b := [e] + old(chains)[b]]
    {
      var index := IndexOf(e.hash);
      PlaceAdd(chains, all, e);
      LinkIn(e, index);
      numEntries := numEntries + 1;
      all := all + {e};
    }

    method LinkIn(e: Entry, index: nat)
      requires Pointers() && e !in links && index < size
      modifies this`chains, this`links, heads, e`next
      ensures Pointers() && links.Keys == old(links.Keys) + {e}
      ensures chains == old(chains)[index := [e] + old(chains)[index]]
    {
      ghost var before := heads[..];
      SpellAdd(before, chains, links, e, index);
      e.next := heads[index];
      heads[index] := e;
      assert heads[..] == before[index := e];
      links, chains := links[e := before[index]], chains[index := [e] + chains[index]];
    }

    /** The walk down the chain of a bucket to entry e; last is the one before. */
    method Locate(index: nat, e: Entry) returns (elem: Entry?, last: Entry?, ghost k: nat)
      requires Pointers() && index < size
      ensures k <= |chains[index]| && (elem == null <==> k == |chains[index]|) && (elem == null ==> e !in chains[index])
      ensures elem != null ==> elem == e == chains[index][k] && last == if k == 0 then null else chains[index][k - 1]
    {
      ghost var c := chains[index];
      SpellAt(heads[..], chains, links, index);
      elem, last, k := heads[index], null, 0;
      while elem != null && elem != e
        invariant k <= |c| && elem == (if k < |c| then c[k] else null)
        invariant last == (if k == 0 then null else c[k - 1]) && forall i | 0 <= i < k :: c[i] != e
        decreases |c| - k
      {
        last := elem;
        elem := elem.next;
        k := k + 1;
      }
    }

    /** Removing an entry that is not in the table does nothing, as the second
        removal after Swap and UnRegister needs. */
    method Remove(e: Entry)
      requires Valid() && e.hash == HashString(e.key)
      modifies this, heads, all`next
      ensures Valid() && all == old(all) - {e}
      ensures numEntries == if e in old(all) then old(numEntries) - 1 else old(numEntries)
      ensures e !in old(all) ==> chains == old(chains)
      ensures e in old(all) ==> e.next == null && Cut(old(chains), chains, e.hash % size, e)
    {
      var index := IndexOf(e.hash);
      PlaceAt(chains, all, index);
      var elem, last, k := Locate(index, e);
      if elem != null {
        PlaceRemove(chains, all, index, k);
        CutAt(chains, index, k);
        UnlinkAt(index, elem, last, k);
        Strike(e);
      }
    }

    method Strike(e: Entry)
      requires size > 0 && mask == MaskFor(size) && |chains| == size && InPlace(chains, all - {e}) && e in all
      requires numEntries == |all| && links.Keys == all - {e} && forall x | x in all :: x.hash == HashString(x.key)
      modifies this`numEntries, this`all
      ensures Ledger() && all == old(all) - {e} && numEntries == old(numEntries) - 1
    {
      numEntries := numEntries - 1;
      all := all - {e};
    }

    /** The relinking around entry k of a chain. */
    method UnlinkAt(index: nat, elem: Entry, last: Entry?, ghost k: nat)
      requires Pointers() && InPlace(chains, all) && index < size && k < |chains[index]| && chains[index][k] == elem
      requires last == if k == 0 then null else chains[index][k - 1]
      modifies this`chains, this`links, heads, links.Keys`next
      ensures Pointers() && links.Keys == old(links.Keys) - {elem} && elem.next == null
      ensures chains == old(chains)[index := Omit(old(chains)[index], k)]
    {
      ghost var before, c := heads[..], chains[index];
      SpellRemove(before, chains, links, all, index, k);
      if last != null {
        last.next := elem.next;
      } else {
        heads[index] := elem.next;
      }
      elem.next := null;
      assert heads[..] == if k == 0 then before[index := links[elem]] else before;
      links, chains := Relinked(links, c, k), chains[index := Omit(c, k)];
    }

    /** Returns the first entry of the chain that has the key; while keys are
        unique, the dictionary's entry. */
    method Map(key: seq<Byte>) returns (r: Entry?)
      requires Valid()
      ensures r == Lookup(chains[HashString(key) % size], key)
      ensures r == null <==> forall e | e in all :: e.key != key
      ensures r != null ==> r in all && r.key == key
      ensures UniqueKeys(all) ==> r == if key in Dictionary(all) then Dictionary(all)[key] else null
    {
      var index := IndexOf(HashString(key));
      ghost var c, k := chains[index], 0;
      LookupFinds(c, key);
      SpellAt(heads[..], chains, links, index);
      PlaceAt(chains, all, index);
      r := heads[index];
      assert c[0..] == c;
      while r != null && r.key != key
        invariant k <= |c| && r == (if k < |c| then c[k] else null) && Lookup(c[k..], key) == Lookup(c, key)
        decreases |c| - k
      {
        assert r in links && r.next == After(c, k);
        r := r.next;
        k := k + 1;
      }
      assert forall e | e in all && e.key == key :: e in c;
    }
  }

  // ---------------------------------------------------------------- iterator

  /** The entries from position i of bucket b on, in iteration order. */
  ghost function Walk(chains: seq<seq<Entry>>, b: nat, i: nat): (r: seq<Entry>)
    decreases |chains| - b, if b < |chains| then |chains[b]| - i else 0
  {
    if b >= |chains| then []
    else if i < |chains[b]| then [chains[b][i]] + Walk(chains, b, i + 1)
    else Walk(chains, b + 1, 0)
  }

  lemma WalkOn(c: seq<seq<Entry>>, b: nat, i: nat)
    requires b < |c| && i < |c[b]|
    ensures Walk(c, b, i) == [c[b][i]] + (if i + 1 < |c[b]| then Walk(c, b, i + 1) else Walk(c, b + 1, 0))
  {
  }

  lemma {:induction false} WalkHas(c: seq<seq<Entry>>, b: nat, i: nat, x: nat, y: nat)
    requires b < x < |c| || (b == x < |c| && i <= y)
    requires y < |c[x]|
    ensures c[x][y] in Walk(c, b, i)
    decreases |c| - b, if b < |c| then |c[b]| - i else 0
  {
    if i < |c[b]| {
      if b != x || i != y {
        WalkHas(c, b, i + 1, x, y);
      }
    } else {
      WalkHas(c, b + 1, 0, x, y);
    }
  }

  lemma {:induction false} WalkOnly(c: seq<seq<Entry>>, b: nat, i: nat, e: Entry)
    requires e in Walk(c, b, i)
    ensures exists x, y :: 0 <= x < |c| && 0 <= y < |c[x]| && c[x][y] == e && (b < x || (b == x && i <= y))
    decreases |c| - b, if b < |c| then |c[b]| - i else 0
  {
    if i < |c[b]| {
      if e != c[b][i] {
        WalkOnly(c, b, i + 1, e);
      }
    } else {
      WalkOnly(c, b + 1, 0, e);
    }
  }

  /** The iteration order lists exactly the entries of the table. */
  lemma WalkListsAll(chains: seq<seq<Entry>>, all: set<Entry>)
    requires Filed(chains, all)
    ensures forall e :: e in Walk(chains, 0, 0) <==> e in all
  {
    forall e
      ensures e in Walk(chains, 0, 0) <==> e in all
    {
      if e in all {
        var y :| 0 <= y < |chains[e.hash % |chains|]| && chains[e.hash % |chains|][y] == e;
        WalkHas(chains, 0, 0, e.hash % |chains|, y);
      } else if e in Walk(chains, 0, 0) {
        WalkOnly(chains, 0, 0, e);
      }
    }
  }

  lemma {:induction false} WalkDistinct(c: seq<seq<Entry>>, all: set<Entry>, b: nat, i: nat)
    requires Filed(c, all)
    ensures Distinct(Walk(c, b, i))
    decreases |c| - b, if b < |c| then |c[b]| - i else 0
  {
    if b < |c| {
      if i < |c[b]| {
        WalkDistinct(c, all, b, i + 1);
        if c[b][i] in Walk(c, b, i + 1) {
          WalkOnly(c, b, i + 1, c[b][i]);
        }
      } else {
        WalkDistinct(c, all, b + 1, 0);
      }
    }
  }

  lemma {:induction false} WalkFrame(c: seq<seq<Entry>>, d: seq<seq<Entry>>, b: nat, i: nat, j: nat)
    requires |c| == |d| && (b < |c| ==> i <= |c[b]| && j <= |d[b]| && c[b][i..] == d[b][j..])
    requires forall x | b < x < |c| :: c[x] == d[x]
    ensures Walk(c, b, i) == Walk(d, b, j)
    decreases |c| - b, if b < |c| then |c[b]| - i else 0
  {
    if b < |c| {
      if i < |c[b]| {
        assert c[b][i] == c[b][i..][0] && d[b][j] == d[b][j..][0];
        assert c[b][i + 1..] == c[b][i..][1..] && d[b][j + 1..] == d[b][j..][1..];
        WalkFrame(c, d, b, i + 1, j + 1);
      } else {
        WalkFrame(c, d, b + 1, 0, 0);
      }
    }
  }

  /** Removing an entry that the walk has passed leaves the rest of it alone. */
  lemma WalkSurvivesRemoval(c: seq<seq<Entry>>, b: nat, i: nat, x: nat, k: nat) returns (j: nat)
    requires x < |c| && k < |c[x]| && (b < |c| ==> i < |c[b]|) && c[x][k] !in Walk(c, b, i)
    ensures var d := c[x := Omit(c[x], k)];
            Walk(d, b, j) == Walk(c, b, i) && (b < |c| ==> j < |d[b]| && d[b][j] == c[b][i]) && (b == |c| ==> j == i)
  {
    var d := c[x := Omit(c[x], k)];
    if b < x || (b == x && i <= k) {
      WalkHas(c, b, i, x, k);
    }
    j := if b == x then i - 1 else i;
    WalkFrame(c, d, b, i, j);
  }

  /** Taking out an entry that is not in the rest of the walk leaves that rest, with
      the current entry, as it was. */
  lemma WalkSurvivesCut(c: seq<seq<Entry>>, d: seq<seq<Entry>>, b: nat, i: nat, x: nat, e: Entry) returns (j: nat)
    requires Cut(c, d, x, e) && (b < |c| ==> i < |c[b]|) && e !in Walk(c, b, i)
    ensures |d| == |c| && Walk(d, b, j) == Walk(c, b, i)
    ensures b < |c| ==> j < |d[b]| && d[b][j] == c[b][i]
    ensures b == |c| ==> j == i
  {
    var k :| 0 <= k < |c[x]| && c[x][k] == e && d == c[x := Omit(c[x], k)];
    j := WalkSurvivesRemoval(c, b, i, x, k);
  }

  /** left is the rest of the walk, kept folded. */
  ghost predicate Ahead(left: seq<Entry>, chains: seq<seq<Entry>>, b: nat, i: nat) {
    forall c {:trigger Walk(c, b, i)} | c == chains :: left == Walk(c, b, i)
  }

  lemma AheadNext(left: seq<Entry>, c: seq<seq<Entry>>, b: nat, i: nat)
    requires Ahead(left, c, b, i) && b < |c| && i < |c[b]|
    ensures |left| > 0 && left[0] == c[b][i]
    ensures if i + 1 < |c[b]| then Ahead(left[1..], c, b, i + 1) else Ahead(left[1..], c, b + 1, 0)
  {
    assert left == Walk(c, b, i);
    WalkOn(c, b, i);
  }

  lemma AheadScan(left: seq<Entry>, c: seq<seq<Entry>>, b: nat)
    requires Ahead(left, c, b, 0) && b < |c| && c[b] == []
    ensures Ahead(left, c, b + 1, 0)
  {
    assert left == Walk(c, b, 0);
  }

  lemma AheadEnd(left: seq<Entry>, c: seq<seq<Entry>>, i: nat)
    requires Ahead(left, c, |c|, i)
    ensures left == []
  {
    assert left == Walk(c, |c|, i);
  }

  class HashTableIter {
    const table: HashTable
    var current: Entry?
    var index: nat
    ghost var pos: nat
    ghost var left: seq<Entry>             // still to hand out, the current entry first

    ghost predicate Valid()
      reads this, table, table.heads, table.links.Keys`next
    {
      && table.Valid() && index <= table.size
      && (current == null <==> index == table.size)
      && (current != null ==> pos < |table.chains[index]| && table.chains[index][pos] == current)
      && Ahead(left, table.chains, index, pos)
    }

    constructor (table: HashTable)
      requires table.Valid()
      ensures this.table == table && Valid() && left == Walk(table.chains, 0, 0)
    {
      this.table := table;
      current := null;
      index := 0;
      pos := 0;
      left := Walk(table.chains, 0, 0);
      new;
      Scan(0);
    }

    /** The loop shared by First and Next: the head of the first non-empty
        bucket from start on. */
    method Scan(start: nat)
      requires table.Valid() && start <= table.size && Ahead(left, table.chains, start, 0)
      modifies this`index, this`current, this`pos
      ensures Valid()
    {
      index := start;
      current := null;
      pos := 0;
      while index < table.size
        invariant start <= index <= table.size && current == null && pos == 0
        invariant Ahead(left, table.chains, index, 0)
      {
        SpellAt(table.heads[..], table.chains, table.links, index);
        current := table.heads[index];
        if current != null {
          return;
        }
        AheadScan(left, table.chains, index);
        index := index + 1;
      }
    }

    method Next()
      requires Valid() && current != null
      modifies this
      ensures Valid() && old(left) == [old(current)] + left
    {
      AheadNext(left, table.chains, index, pos);
      FollowLink();
      left := left[1..];
      if current == null {
        Scan(index + 1);
      }
    }

    /** To the next entry of the chain, or to none. */
    method FollowLink()
      requires table.Pointers() && index < table.size && pos < |table.chains[index]|
      requires table.chains[index][pos] == current
      modifies this`current, this`pos
      ensures pos == old(pos) + 1
      ensures current == if pos < |table.chains[index]| then table.chains[index][pos] else null
    {
      SpellAt(table.heads[..], table.chains, table.links, index);
      current := current.next;
      pos := pos + 1;
    }
  }

  /** Remove, called for an entry an iterator has already left behind. */
  method RemoveVisited(table: HashTable, iter: HashTableIter, e: Entry)
    requires table.Valid() && iter.Valid() && iter.table == table && e in table.all && e !in iter.left
    modifies table, table.heads, table.all`next, iter`pos
    ensures iter.Valid() && table.all == old(table.all) - {e} && iter.left == old(iter.left)
  {
    ghost var chains := table.chains;
    assert iter.left == Walk(chains, iter.index, iter.pos);
    table.Remove(e);
    iter.pos := WalkSurvivesCut(chains, table.chains, iter.index, iter.pos, e.hash % table.size, e);
  }

  /** One round of the clean-up loop: step on first, then let the entry just
      left be removed. */
  method VisitOne(table: HashTable, iter: HashTableIter, doomed: set<Entry>) returns (e: Entry)
    requires iter.Valid() && iter.table == table && iter.current != null && Distinct(iter.left)
    modifies table, table.heads, table.all`next, iter
    ensures iter.Valid() && old(iter.left) == [e] + iter.left
    ensures table.all == old(table.all) - (if e in doomed then {e} else {})
  {
    e := iter.current;
    PlaceAt(table.chains, table.all, iter.index);
    ghost var before := iter.left;
    iter.Next();
    HeadNotInTail(before, e, iter.left);
    if e in doomed {
      RemoveVisited(table, iter, e);
    }
  }

  lemma HeadNotInTail(s: seq<Entry>, e: Entry, rest: seq<Entry>)
    requires Distinct(s) && s == [e] + rest
    ensures e !in rest
  {
    assert s[0] == e && forall i | 0 <= i < |rest| :: rest[i] == s[i + 1] && s[i + 1] != s[0];
  }

  lemma SuffixDistinct(visited: seq<Entry>, left: seq<Entry>)
    requires Distinct(visited + left)
    ensures Distinct(left)
  {
    forall i, j | 0 <= i < j < |left|
      ensures left[i] != left[j]
    {
      assert left[i] == (visited + left)[|visited| + i] && left[j] == (visited + left)[|visited| + j];
    }
  }

  /** now is before without the doomed entries among the visited ones. */
  ghost predicate Culled(before: set<Entry>, now: set<Entry>, doomed: set<Entry>, visited: seq<Entry>) {
    now <= before && forall x | x in before :: x in now <==> !(x in doomed && x in visited)
  }

  lemma CullStep(before: set<Entry>, now: set<Entry>, doomed: set<Entry>, visited: seq<Entry>, e: Entry)
    requires Culled(before, now, doomed, visited)
    ensures Culled(before, now - (if e in doomed then {e} else {}), doomed, visited + [e])
  {
  }

  method VisitRest(table: HashTable, iter: HashTableIter, doomed: set<Entry>) returns (visited: seq<Entry>)
    requires iter.Valid() && iter.table == table && Distinct(iter.left)
    modifies table, table.heads, table.all`next, iter
    ensures table.Valid() && visited == old(iter.left) && Culled(old(table.all), table.all, doomed, visited)
  {
    visited := [];
    ghost var left := iter.left;
    while iter.current != null
      invariant iter.Valid() && iter.left == left && visited + left == old(iter.left)
      invariant Culled(old(table.all), table.all, doomed, visited)
      decreases |left|
    {
      SuffixDistinct(visited, left);
      ghost var now := table.all;
      var e := VisitOne(table, iter, doomed);
      Append(visited, [e], iter.left);
      CullStep(old(table.all), now, doomed, visited, e);
      left := iter.left;
      visited := visited + [e];
    }
    AheadEnd(iter.left, table.chains, iter.pos);
  }

  /** The clean-up walk of CFSocket/EventContext.cpp meets every entry once, in
      chain order, even though entries are removed on the way. */
  method VisitAll(table: HashTable, doomed: set<Entry>) returns (visited: seq<Entry>)
    requires table.Valid()
    modifies table, table.heads, table.all`next
    ensures table.Valid() && table.all == old(table.all) - doomed
    ensures visited == old(Walk(table.chains, 0, 0)) && Distinct(visited)
  {
    WalkDistinct(table.chains, table.all, 0, 0);
    WalkListsAll(table.chains, table.all);
    var iter := new HashTableIter(table);
    visited := VisitRest(table, iter, doomed);
  }
}
