/** The chained hash table of src/common/dictionary.c with binary keys: 32-bit words, compared word by word. */
module Dictionaries {
  import opened Cardinality
  import opened Flash
  import opened Logs
  import opened Protocol

  // ---------------------------------------------------------------- binary keys

  /** The little-endian 32-bit word i of a key. */
  function WordAt(key: Key, i: nat): (w: nat)
    requires 4 * i + 4 <= |key|
    ensures w < 0x1_0000_0000
  {
    key[4 * i] as nat + 0x100 * (key[4 * i + 1] as nat) + 0x1_0000 * (key[4 * i + 2] as nat)
      + 0x100_0000 * (key[4 * i + 3] as nat)
  }

  /** The 32-bit sum of the first n words. */
  function WordSum(key: Key, n: nat): (s: nat)
    requires 4 * n <= |key|
    ensures s < 0x1_0000_0000
  {
    if n == 0 then 0 else (WordSum(key, n - 1) + WordAt(key, n - 1)) % 0x1_0000_0000
  }

  /** A key of one word: its four bytes as digits, the lowest one first. */
  lemma WordSumOfOne(b0: byte, b1: byte, b2: byte, b3: byte)
    ensures WordSum([b0, b1, b2, b3], 1)
            == b0 as nat + 256 * (b1 as nat) + 65536 * (b2 as nat) + 16777216 * (b3 as nat)
  {
    hide WordSum;
    WordSumNext([b0, b1, b2, b3], 0);
    WordSumNothing([b0, b1, b2, b3]);
  }

  lemma WordSumNext(key: Key, n: nat)
    requires 4 * n + 4 <= |key|
    ensures WordSum(key, n + 1) == (WordSum(key, n) + WordAt(key, n)) % 0x1_0000_0000
  {
    hide WordAt;
  }

  /** The sum of a concatenation is that of its parts. */
  lemma {:induction false} WordSumAppends(a: Key, n: nat, b: Key, m: nat)
    requires |a| == 4 * n && 4 * m <= |b|
    ensures WordSum(a + b, n + m) == (WordSum(a, n) + WordSum(b, m)) % 0x1_0000_0000
  {
    hide WordAt, WordSum;
    if m == 0 {
      WordSumPrefix(a, b, n);
      WordSumNothing(b);
    } else {
      WordSumAppends(a, n, b, m - 1);
      WordSumNext(a + b, n + m - 1);
      WordSumNext(b, m - 1);
      LastWords(a, n, b, m - 1);
      AddToRest(WordSum(a, n), WordSum(b, m - 1), WordAt(b, m - 1));
    }
  }

  lemma {:induction false} WordSumPrefix(a: Key, b: Key, n: nat)
    requires 4 * n <= |a|
    ensures WordSum(a + b, n) == WordSum(a, n)
  {
    hide WordAt;
    if n > 0 {
      WordSumPrefix(a, b, n - 1);
      FirstWords(a, b, n - 1);
    }
  }

  lemma WordSumNothing(key: Key)
    ensures WordSum(key, 0) == 0
  {
  }

  lemma FirstWords(a: Key, b: Key, i: nat)
    requires 4 * i + 4 <= |a|
    ensures WordAt(a + b, i) == WordAt(a, i)
  {
  }

  lemma LastWords(a: Key, n: nat, b: Key, i: nat)
    requires |a| == 4 * n && 4 * i + 4 <= |b|
    ensures WordAt(a + b, n + i) == WordAt(b, i)
  {
  }

  lemma AddToRest(x: nat, y: nat, w: nat)
    ensures ((x + y) % 0x1_0000_0000 + w) % 0x1_0000_0000 == (x + (y + w) % 0x1_0000_0000) % 0x1_0000_0000
  {
  }

  lemma ByteInjective(a: byte, b: byte)
    requires a as nat == b as nat
    ensures a == b
  {
  }

  lemma DigitInjective(lo: nat, hi: nat, lo': nat, hi': nat)
    requires lo < 256 && lo' < 256 && lo + 0x100 * hi == lo' + 0x100 * hi'
    ensures lo == lo' && hi == hi'
  {
  }

  lemma DigitsInjective(a0: nat, a1: nat, a2: nat, a3: nat, b0: nat, b1: nat, b2: nat, b3: nat)
    requires a0 < 256 && a1 < 256 && a2 < 256 && a3 < 256 && b0 < 256 && b1 < 256 && b2 < 256 && b3 < 256
    requires a0 + 0x100 * a1 + 0x1_0000 * a2 + 0x100_0000 * a3 == b0 + 0x100 * b1 + 0x1_0000 * b2 + 0x100_0000 * b3
    ensures a0 == b0 && a1 == b1 && a2 == b2 && a3 == b3
  {
    DigitInjective(a0, a1 + 0x100 * a2 + 0x1_0000 * a3, b0, b1 + 0x100 * b2 + 0x1_0000 * b3);
    DigitInjective(a1, a2 + 0x100 * a3, b1, b2 + 0x100 * b3);
    DigitInjective(a2, a3, b2, b3);
  }

  lemma SameWord(a: Key, b: Key, i: nat)
    requires 4 * i + 4 <= |a| && 4 * i + 4 <= |b| && WordAt(a, i) == WordAt(b, i)
    ensures a[4 * i] == b[4 * i] && a[4 * i + 1] == b[4 * i + 1] && a[4 * i + 2] == b[4 * i + 2]
            && a[4 * i + 3] == b[4 * i + 3]
  {
    DigitsInjective(a[4 * i] as nat, a[4 * i + 1] as nat, a[4 * i + 2] as nat, a[4 * i + 3] as nat,
                    b[4 * i] as nat, b[4 * i + 1] as nat, b[4 * i + 2] as nat, b[4 * i + 3] as nat);
    ByteInjective(a[4 * i], b[4 * i]);
    ByteInjective(a[4 * i + 1], b[4 * i + 1]);
    ByteInjective(a[4 * i + 2], b[4 * i + 2]);
    ByteInjective(a[4 * i + 3], b[4 * i + 3]);
  }

  /** Keys of n words are equal exactly when their words are. */
  lemma {:induction false} SameWords(a: Key, b: Key, n: nat)
    requires |a| == |b| == 4 * n
    ensures a == b <==> forall i :: 0 <= i < n ==> WordAt(a, i) == WordAt(b, i)
  {
    if forall i :: 0 <= i < n ==> WordAt(a, i) == WordAt(b, i) {
      forall j | 0 <= j < |a|
        ensures a[j] == b[j]
      {
        assert WordAt(a, j / 4) == WordAt(b, j / 4);
        SameWord(a, b, j / 4);
        assert j == 4 * (j / 4) + j % 4;
      }
    }
  }

  /** The bucket of a key. */
  function Bucket(words: nat, size: nat, key: Key): (b: nat)
    requires |key| == 4 * words && 0 < size
    ensures b < size
  {
    WordSum(key, words) % size
  }

  // ---------------------------------------------------------------- the table as a value

  /** The address of a node; zero is the null pointer. */
  type Ptr = nat

  const NULL: Ptr := 0

  datatype DList = DList(next: Ptr, key: Key, value: Entry)

  /** The allocated nodes. */
  type Heap = map<Ptr, DList>

  type Chain = seq<Ptr>

  /** Where the node of a key is. */
  datatype Place = Place(ptr: Ptr, bucket: nat)

  type Places = map<Key, Place>

  function Nth(chain: Chain, i: nat): Ptr { if i < |chain| then chain[i] else NULL }

  /** Node i of chain b: allocated, linked to the next one, and indexed by its key. */
  predicate NodeOk(heap: Heap, index: Places, b: nat, chain: Chain, i: nat)
    requires i < |chain|
  {
    && chain[i] != NULL && chain[i] in heap
    && heap[chain[i]].next == Nth(chain, i + 1)
    && heap[chain[i]].key in index && index[heap[chain[i]].key] == Place(chain[i], b)
  }

  predicate ChainOk(heap: Heap, index: Places, b: nat, chain: Chain) {
    && (forall i :: 0 <= i < |chain| ==> NodeOk(heap, index, b, chain, i))
    && (forall i, j :: 0 <= i < j < |chain| ==> chain[i] != chain[j])
  }

  /** Every indexed key has its node, in its chain, and every allocated node is indexed: nothing leaks. */
  predicate IndexOk(heap: Heap, index: Places, chains: seq<Chain>) {
    && (forall k :: k in index ==>
          && index[k].ptr in heap && heap[index[k].ptr].key == k
          && index[k].bucket < |chains| && index[k].ptr in chains[index[k].bucket])
    && (forall p :: p in heap ==> heap[p].key in index && index[heap[p].key].ptr == p)
  }

  /** The table: the bucket heads lead into disjoint, acyclic chains of nodes with unique keys. */
  ghost predicate TableOk(tab: seq<Ptr>, heap: Heap, index: Places, chains: seq<Chain>) {
    && |chains| == |tab|
    && (forall b :: 0 <= b < |tab| ==> tab[b] == Nth(chains[b], 0))
    && (forall b :: 0 <= b < |tab| ==> ChainOk(heap, index, b, chains[b]))
    && IndexOk(heap, index, chains)
  }

  /** Each key is in the bucket of its hash. */
  ghost predicate Hashed(words: nat, size: nat, index: Places)
    requires 0 < size
  {
    forall k :: k in index ==> |k| == 4 * words && index[k].bucket == Bucket(words, size, k)
  }

  /** The map that the table stands for. */
  function ContentsOf(heap: Heap, index: Places): map<Key, Entry> {
    map k | k in index && index[k].ptr in heap :: heap[index[k].ptr].value
  }

  // ---------------------------------------------------------------- looking up

  lemma NodeFacts(tab: seq<Ptr>, heap: Heap, index: Places, chains: seq<Chain>, b: nat, i: nat)
    requires TableOk(tab, heap, index, chains) && b < |tab| && i < |chains[b]|
    ensures NodeOk(heap, index, b, chains[b], i)
  {
    hide IndexOk, NodeOk;
    assert ChainOk(heap, index, b, chains[b]);
  }

  lemma HeadFacts(tab: seq<Ptr>, heap: Heap, index: Places, chains: seq<Chain>, b: nat)
    requires TableOk(tab, heap, index, chains) && b < |tab|
    ensures |chains| == |tab| && tab[b] == Nth(chains[b], 0)
  {
    hide IndexOk, ChainOk;
  }

  /** The first i nodes of a chain have other keys. */
  predicate Passed(heap: Heap, chain: Chain, i: nat, key: Key)
    requires i <= |chain|
  {
    forall j :: 0 <= j < i ==> chain[j] in heap && heap[chain[j]].key != key
  }

  lemma PassNext(heap: Heap, chain: Chain, i: nat, key: Key)
    requires i < |chain| && Passed(heap, chain, i, key) && chain[i] in heap && heap[chain[i]].key != key
    ensures Passed(heap, chain, i + 1, key)
  {
  }

  lemma Missing(words: nat, tab: seq<Ptr>, heap: Heap, index: Places, chains: seq<Chain>, key: Key)
    requires TableOk(tab, heap, index, chains) && 0 < |tab| && Hashed(words, |tab|, index) && |key| == 4 * words
    requires Passed(heap, chains[Bucket(words, |tab|, key)], |chains[Bucket(words, |tab|, key)]|, key)
    ensures key !in index
  {
    hide Bucket, ChainOk;
  }

  lemma ContentsHas(tab: seq<Ptr>, heap: Heap, index: Places, chains: seq<Chain>, key: Key)
    requires TableOk(tab, heap, index, chains)
    ensures key in index <==> key in ContentsOf(heap, index)
    ensures key in index ==>
              index[key].ptr in heap && heap[index[key].ptr].key == key
                && heap[index[key].ptr].value == ContentsOf(heap, index)[key]
  {
    hide ChainOk;
  }

  lemma NodeIsIndexed(tab: seq<Ptr>, heap: Heap, index: Places, chains: seq<Chain>, p: Ptr)
    requires TableOk(tab, heap, index, chains) && p in heap
    ensures heap[p].key in index && index[heap[p].key].ptr == p
  {
    hide ChainOk;
  }

  /** Each key has the node it is indexed with. */
  predicate Owned(heap: Heap, index: Places) {
    forall k :: k in index ==> index[k].ptr in heap && heap[index[k].ptr].key == k
  }

  lemma TableOwns(tab: seq<Ptr>, heap: Heap, index: Places, chains: seq<Chain>)
    requires TableOk(tab, heap, index, chains)
    ensures Owned(heap, index)
  {
    hide ChainOk;
  }

  // ---------------------------------------------------------------- a new node at the head of its chain

  lemma PushedNode(heap: Heap, index: Places, b: nat, chain: Chain, i: nat, np: Ptr, n: DList, h: nat, ch: Chain,
                   j: nat)
    requires i < |chain| && NodeOk(heap, index, b, chain, i) && np !in heap && n.key !in index
    requires j < |ch| && ch[j] == chain[i] && Nth(ch, j + 1) == Nth(chain, i + 1)
    ensures NodeOk(heap[np := n], index[n.key := Place(np, h)], b, ch, j) && chain[i] != np
  {
  }

  lemma PushedFirst(heap: Heap, index: Places, h: nat, chain: Chain, np: Ptr, n: DList)
    requires np != NULL && n.next == Nth(chain, 0)
    ensures NodeOk(heap[np := n], index[n.key := Place(np, h)], h, [np] + chain, 0)
  {
    assert Nth([np] + chain, 1) == Nth(chain, 0);
  }

  lemma PushedChain(tab: seq<Ptr>, heap: Heap, index: Places, chains: seq<Chain>, np: Ptr, n: DList, h: nat)
    requires TableOk(tab, heap, index, chains) && h < |tab|
    requires np != NULL && np !in heap && n.key !in index && n.next == tab[h]
    ensures ChainOk(heap[np := n], index[n.key := Place(np, h)], h, [np] + chains[h])
  {
    hide IndexOk, NodeOk;
    var ch, heap', index' := [np] + chains[h], heap[np := n], index[n.key := Place(np, h)];
    assert ChainOk(heap, index, h, chains[h]);
    PushedFirst(heap, index, h, chains[h], np, n);
    forall i | 0 < i < |ch|
      ensures NodeOk(heap', index', h, ch, i)
      ensures ch[i] == chains[h][i - 1] != np
    {
      PushedNode(heap, index, h, chains[h], i - 1, np, n, h, ch, i);
    }
  }

  lemma OldChain(tab: seq<Ptr>, heap: Heap, index: Places, chains: seq<Chain>, np: Ptr, n: DList, h: nat, b: nat)
    requires TableOk(tab, heap, index, chains) && b < |tab|
    requires np !in heap && n.key !in index
    ensures ChainOk(heap[np := n], index[n.key := Place(np, h)], b, chains[b])
  {
    hide IndexOk, NodeOk;
    var heap', index' := heap[np := n], index[n.key := Place(np, h)];
    assert ChainOk(heap, index, b, chains[b]);
    forall i | 0 <= i < |chains[b]|
      ensures NodeOk(heap', index', b, chains[b], i)
    {
      PushedNode(heap, index, b, chains[b], i, np, n, h, chains[b], i);
    }
  }

  lemma PushOk(tab: seq<Ptr>, heap: Heap, index: Places, chains: seq<Chain>, np: Ptr, n: DList, h: nat)
    requires TableOk(tab, heap, index, chains) && h < |tab|
    requires np != NULL && np !in heap && n.key !in index && n.next == tab[h]
    ensures TableOk(tab[h := np], heap[np := n], index[n.key := Place(np, h)], chains[h := [np] + chains[h]])
    ensures ContentsOf(heap[np := n], index[n.key := Place(np, h)]) == ContentsOf(heap, index)[n.key := n.value]
  {
    hide ChainOk, NodeOk, IndexOk, ContentsOf;
    var chains' := chains[h := [np] + chains[h]];
    forall b | 0 <= b < |tab|
      ensures ChainOk(heap[np := n], index[n.key := Place(np, h)], b, chains'[b])
    {
      if b == h {
        PushedChain(tab, heap, index, chains, np, n, h);
      } else {
        OldChain(tab, heap, index, chains, np, n, h, b);
      }
    }
    assert chains'[h][0] == np;
    PushedIndex(tab, heap, index, chains, np, n, h);
    TableOwns(tab, heap, index, chains);
    PushedContents(heap, index, np, n, h);
  }

  lemma PushedIndex(tab: seq<Ptr>, heap: Heap, index: Places, chains: seq<Chain>, np: Ptr, n: DList, h: nat)
    requires TableOk(tab, heap, index, chains) && h < |tab| && np !in heap && n.key !in index
    ensures |chains| == |tab|
    ensures IndexOk(heap[np := n], index[n.key := Place(np, h)], chains[h := [np] + chains[h]])
  {
    hide ChainOk;
    assert ([np] + chains[h])[0] == np;
    assert forall p :: p in chains[h] ==> p in [np] + chains[h];
  }

  lemma PushedContents(heap: Heap, index: Places, np: Ptr, n: DList, h: nat)
    requires Owned(heap, index) && np !in heap
    ensures ContentsOf(heap[np := n], index[n.key := Place(np, h)]) == ContentsOf(heap, index)[n.key := n.value]
  {
  }

  // ---------------------------------------------------------------- removing a node

  /** A chain without its node i. */
  function Without(chain: Chain, i: nat): (r: Chain)
    requires i < |chain|
    ensures |r| == |chain| - 1
    ensures forall j :: 0 <= j < |r| ==> r[j] == chain[if j < i then j else j + 1]
    ensures forall j :: 0 <= j < |chain| && j != i ==> chain[j] == r[if j < i then j else j - 1]
  {
    chain[..i] + chain[i + 1..]
  }

  /** The heap after node i of a chain has been unlinked from its predecessor, if it has one, and freed. */
  function Unlinked(heap: Heap, chain: Chain, i: nat): Heap
    requires i < |chain| && chain[i] in heap && (0 < i ==> chain[i - 1] in heap)
  {
    (if i == 0 then heap else heap[chain[i - 1] := heap[chain[i - 1]].(next := heap[chain[i]].next)]) - {chain[i]}
  }

  function HeadWithout(tab: seq<Ptr>, heap: Heap, chain: Chain, h: nat, i: nat): seq<Ptr>
    requires h < |tab| && i < |chain| && chain[i] in heap
  {
    if i == 0 then tab[h := heap[chain[0]].next] else tab
  }

  lemma UnlinkedNode(heap: Heap, index: Places, b: nat, ch: Chain, i: nat, j: nat)
    requires i < |ch| && j < |ch| - 1
    requires NodeOk(heap, index, b, ch, i) && NodeOk(heap, index, b, ch, if j < i then j else j + 1)
    requires 0 < i ==> ch[i - 1] in heap && ch[i - 1] != ch[i]
    requires forall x, y :: 0 <= x < y < |ch| ==> ch[x] != ch[y]
    ensures NodeOk(Unlinked(heap, ch, i), index - {heap[ch[i]].key}, b, Without(ch, i), j)
  {
    var k := if j < i then j else j + 1;
    assert Without(ch, i)[j] == ch[k] != ch[i];
    assert Nth(Without(ch, i), j + 1) == if j == i - 1 then Nth(ch, i + 1) else Nth(ch, k + 1);
    assert j != i - 1 && 0 < i ==> ch[k] != ch[i - 1];
  }

  lemma UnlinkedChain(tab: seq<Ptr>, heap: Heap, index: Places, chains: seq<Chain>, h: nat, i: nat)
    requires TableOk(tab, heap, index, chains) && h < |tab| && i < |chains[h]|
    requires chains[h][i] in heap && (0 < i ==> chains[h][i - 1] in heap)
    ensures ChainOk(Unlinked(heap, chains[h], i), index - {heap[chains[h][i]].key}, h, Without(chains[h], i))
  {
    hide IndexOk, NodeOk, Without, Unlinked;
    var ch := chains[h];
    assert ChainOk(heap, index, h, ch);
    assert NodeOk(heap, index, h, ch, i);
    forall j | 0 <= j < |ch| - 1
      ensures NodeOk(Unlinked(heap, ch, i), index - {heap[ch[i]].key}, h, Without(ch, i), j)
    {
      assert NodeOk(heap, index, h, ch, if j < i then j else j + 1);
      UnlinkedNode(heap, index, h, ch, i, j);
    }
  }

  lemma OtherNode(heap: Heap, index: Places, b: nat, chain: Chain, j: nat, h: nat, ch: Chain, i: nat)
    requires j < |chain| && NodeOk(heap, index, b, chain, j) && b != h
    requires i < |ch| && NodeOk(heap, index, h, ch, i) && (0 < i ==> NodeOk(heap, index, h, ch, i - 1))
    ensures NodeOk(Unlinked(heap, ch, i), index - {heap[ch[i]].key}, b, chain, j)
  {
  }

  lemma OtherChain(tab: seq<Ptr>, heap: Heap, index: Places, chains: seq<Chain>, h: nat, i: nat, b: nat)
    requires TableOk(tab, heap, index, chains) && h < |tab| && i < |chains[h]| && b < |tab| && b != h
    requires chains[h][i] in heap && (0 < i ==> chains[h][i - 1] in heap)
    ensures ChainOk(Unlinked(heap, chains[h], i), index - {heap[chains[h][i]].key}, b, chains[b])
  {
    hide IndexOk, NodeOk, Unlinked;
    NodeFacts(tab, heap, index, chains, h, i);
    if 0 < i { NodeFacts(tab, heap, index, chains, h, i - 1); }
    assert ChainOk(heap, index, b, chains[b]);
    forall j: nat | j < |chains[b]|
      ensures NodeOk(Unlinked(heap, chains[h], i), index - {heap[chains[h][i]].key}, b, chains[b], j)
    {
      OtherNode(heap, index, b, chains[b], j, h, chains[h], i);
    }
  }

  lemma UnlinkedKeys(heap: Heap, ch: Chain, i: nat)
    requires i < |ch| && ch[i] in heap && (0 < i ==> ch[i - 1] in heap)
    ensures Unlinked(heap, ch, i).Keys == heap.Keys - {ch[i]}
    ensures forall p :: p in heap && p != ch[i] ==>
              Unlinked(heap, ch, i)[p].key == heap[p].key && Unlinked(heap, ch, i)[p].value == heap[p].value
  {
  }

  lemma StillIn(ch: Chain, i: nat, p: Ptr)
    requires i < |ch| && p in ch && p != ch[i]
    ensures p in Without(ch, i)
  {
    var j :| 0 <= j < |ch| && ch[j] == p;
    assert Without(ch, i)[if j < i then j else j - 1] == p;
  }

  lemma UnlinkedIndex(heap: Heap, index: Places, chains: seq<Chain>, heap': Heap, key: Key, h: nat, i: nat)
    requires IndexOk(heap, index, chains) && h < |chains| && i < |chains[h]|
    requires key in index && index[key] == Place(chains[h][i], h)
    requires heap'.Keys == heap.Keys - {chains[h][i]} && forall p :: p in heap' ==> heap'[p].key == heap[p].key
    ensures IndexOk(heap', index - {key}, chains[h := Without(chains[h], i)])
  {
    hide Without;
    forall k | k in index && k != key
      ensures index[k].ptr in chains[h := Without(chains[h], i)][index[k].bucket]
    {
      if index[k].bucket == h { StillIn(chains[h], i, index[k].ptr); }
    }
  }

  lemma UnlinkedContents(heap: Heap, index: Places, ch: Chain, i: nat)
    requires i < |ch| && ch[i] in heap && (0 < i ==> ch[i - 1] in heap) && Owned(heap, index)
    requires heap[ch[i]].key in index && index[heap[ch[i]].key].ptr == ch[i]
    ensures ContentsOf(Unlinked(heap, ch, i), index - {heap[ch[i]].key}) == ContentsOf(heap, index) - {heap[ch[i]].key}
  {
    UnlinkedKeys(heap, ch, i);
    hide Unlinked;
  }

  lemma UnlinkOk(tab: seq<Ptr>, heap: Heap, index: Places, chains: seq<Chain>, h: nat, i: nat)
    requires TableOk(tab, heap, index, chains) && h < |tab| && i < |chains[h]|
    requires chains[h][i] in heap && (0 < i ==> chains[h][i - 1] in heap)
    ensures TableOk(HeadWithout(tab, heap, chains[h], h, i), Unlinked(heap, chains[h], i),
                    index - {heap[chains[h][i]].key}, chains[h := Without(chains[h], i)])
    ensures ContentsOf(Unlinked(heap, chains[h], i), index - {heap[chains[h][i]].key})
            == ContentsOf(heap, index) - {heap[chains[h][i]].key}
  {
    hide Without, Unlinked, ChainOk, IndexOk;
    var ch, key := chains[h], heap[chains[h][i]].key;
    var heap', index', chains' := Unlinked(heap, ch, i), index - {key}, chains[h := Without(ch, i)];
    NodeFacts(tab, heap, index, chains, h, i);
    forall b | 0 <= b < |tab|
      ensures ChainOk(heap', index', b, chains'[b])
    {
      if b == h {
        UnlinkedChain(tab, heap, index, chains, h, i);
      } else {
        OtherChain(tab, heap, index, chains, h, i, b);
      }
    }
    UnlinkedKeys(heap, ch, i);
    UnlinkedIndex(heap, index, chains, heap', key, h, i);
    TableOwns(tab, heap, index, chains);
    UnlinkedContents(heap, index, ch, i);
  }

  // ---------------------------------------------------------------- writing to a value

  lemma SetNode(heap: Heap, index: Places, b: nat, ch: Chain, i: nat, np: Ptr, e: Entry)
    requires i < |ch| && np in heap && NodeOk(heap, index, b, ch, i)
    ensures NodeOk(heap[np := heap[np].(value := e)], index, b, ch, i)
  {
  }

  /** Writing to the value of a node changes neither links nor keys. */
  lemma SetValueOk(tab: seq<Ptr>, heap: Heap, index: Places, chains: seq<Chain>, np: Ptr, e: Entry)
    requires TableOk(tab, heap, index, chains) && np in heap
    ensures TableOk(tab, heap[np := heap[np].(value := e)], index, chains)
    ensures ContentsOf(heap[np := heap[np].(value := e)], index) == ContentsOf(heap, index)[heap[np].key := e]
  {
    hide NodeOk;
    var heap' := heap[np := heap[np].(value := e)];
    forall b | 0 <= b < |tab|
      ensures ChainOk(heap', index, b, chains[b])
    {
      assert ChainOk(heap, index, b, chains[b]);
      forall i: nat | i < |chains[b]|
        ensures NodeOk(heap', index, b, chains[b], i)
      {
        SetNode(heap, index, b, chains[b], i, np, e);
      }
    }
  }

  // ---------------------------------------------------------------- walking the table

  /** The nodes of the chains from b on, in the order of an unsorted walk. */
  function WalkFrom(chains: seq<Chain>, b: nat): seq<Ptr>
    decreases |chains| - b
  {
    if b < |chains| then chains[b] + WalkFrom(chains, b + 1) else []
  }

  lemma {:induction false} WalkNodes(tab: seq<Ptr>, heap: Heap, index: Places, chains: seq<Chain>, b: nat)
    requires TableOk(tab, heap, index, chains) && b <= |tab|
    ensures forall i :: 0 <= i < |WalkFrom(chains, b)| ==>
              var p := WalkFrom(chains, b)[i]; p != NULL && p in heap && heap[p].key in index
                                               && index[heap[p].key].ptr == p && b <= index[heap[p].key].bucket
    ensures forall i, j :: 0 <= i < j < |WalkFrom(chains, b)| ==> WalkFrom(chains, b)[i] != WalkFrom(chains, b)[j]
    decreases |tab| - b
  {
    hide TableOk, NodeOk;
    AsManyChains(tab, heap, index, chains);
    if b < |tab| {
      WalkNodes(tab, heap, index, chains, b + 1);
      forall i | 0 <= i < |chains[b]|
        ensures var p := chains[b][i];
                p != NULL && p in heap && heap[p].key in index && index[heap[p].key] == Place(p, b)
      {
        ChainNode(tab, heap, index, chains, b, i);
      }
      ChainDistinct(tab, heap, index, chains, b);
    }
  }

  lemma AsManyChains(tab: seq<Ptr>, heap: Heap, index: Places, chains: seq<Chain>)
    requires TableOk(tab, heap, index, chains)
    ensures |chains| == |tab|
  {
    hide IndexOk, ChainOk;
  }

  lemma KeyPlace(tab: seq<Ptr>, heap: Heap, index: Places, chains: seq<Chain>, k: Key)
    requires TableOk(tab, heap, index, chains) && k in index
    ensures index[k].bucket < |chains| && index[k].ptr in chains[index[k].bucket]
  {
    hide ChainOk;
  }

  lemma ChainNode(tab: seq<Ptr>, heap: Heap, index: Places, chains: seq<Chain>, b: nat, i: nat)
    requires TableOk(tab, heap, index, chains) && b < |tab| && i < |chains[b]|
    ensures var p := chains[b][i]; p != NULL && p in heap && heap[p].key in index && index[heap[p].key] == Place(p, b)
  {
    NodeFacts(tab, heap, index, chains, b, i);
  }

  lemma ChainDistinct(tab: seq<Ptr>, heap: Heap, index: Places, chains: seq<Chain>, b: nat)
    requires TableOk(tab, heap, index, chains) && b < |tab|
    ensures forall i, j :: 0 <= i < j < |chains[b]| ==> chains[b][i] != chains[b][j]
  {
    hide NodeOk, IndexOk;
    assert ChainOk(heap, index, b, chains[b]);
  }

  lemma {:induction false} WalkReaches(chains: seq<Chain>, b: nat, d: nat, p: Ptr)
    requires b <= d < |chains| && p in chains[d]
    ensures p in WalkFrom(chains, b)
    decreases d - b
  {
    if b < d { WalkReaches(chains, b + 1, d, p); }
  }

  /** The keys in the order of a walk over the given nodes. */
  function KeysOf(heap: Heap, walk: seq<Ptr>): (keys: seq<Key>)
    ensures |keys| == |walk|
  {
    seq(|walk|, i requires 0 <= i < |walk| => if walk[i] in heap then heap[walk[i]].key else [])
  }

  /** An unsorted walk meets every key of the table exactly once. */
  lemma WalkIsComplete(tab: seq<Ptr>, heap: Heap, index: Places, chains: seq<Chain>)
    requires TableOk(tab, heap, index, chains)
    ensures forall i :: 0 <= i < |WalkFrom(chains, 0)| ==> WalkFrom(chains, 0)[i] in heap
    ensures var keys := KeysOf(heap, WalkFrom(chains, 0));
            && (forall i :: 0 <= i < |keys| ==> keys[i] in index)
            && (forall k :: k in index ==> k in keys)
            && (forall i, j :: 0 <= i < j < |keys| ==> keys[i] != keys[j])
  {
    hide NodeOk, ChainOk;
    WalkNodes(tab, heap, index, chains, 0);
    var walk := WalkFrom(chains, 0);
    forall k | k in index
      ensures k in KeysOf(heap, walk)
    {
      WalkReaches(chains, 0, index[k].bucket, index[k].ptr);
      var i :| 0 <= i < |walk| && walk[i] == index[k].ptr;
      assert KeysOf(heap, walk)[i] == k;
    }
  }

  // ---------------------------------------------------------------- the order of a walk

  /** Another chain in place of chain h: the nodes in front of it, from b on, and those behind it stay. */
  lemma {:induction false} WalkAround(chains: seq<Chain>, b: nat, h: nat, ch: Chain) returns (front: seq<Ptr>)
    requires b <= h < |chains|
    ensures WalkFrom(chains, b) == front + chains[h] + WalkFrom(chains, h + 1)
    ensures WalkFrom(chains[h := ch], b) == front + ch + WalkFrom(chains, h + 1)
    ensures forall p :: p in front ==> exists d :: b <= d < h && p in chains[d]
    decreases h - b
  {
    if b == h {
      front := [];
      WalkBehind(chains, h, ch, h + 1);
      assert front + chains[h] == chains[h] && front + ch == ch;
    } else {
      var rest := WalkAround(chains, b + 1, h, ch);
      front := chains[b] + rest;
      assert front + chains[h] + WalkFrom(chains, h + 1) == chains[b] + (rest + chains[h] + WalkFrom(chains, h + 1));
      assert front + ch + WalkFrom(chains, h + 1) == chains[b] + (rest + ch + WalkFrom(chains, h + 1));
    }
  }

  lemma {:induction false} WalkBehind(chains: seq<Chain>, h: nat, ch: Chain, b: nat)
    requires h < b && h < |chains|
    ensures WalkFrom(chains[h := ch], b) == WalkFrom(chains, b)
    decreases |chains| - b
  {
    if b < |chains| { WalkBehind(chains, h, ch, b + 1); }
  }

  lemma KeysAppend(heap: Heap, a: seq<Ptr>, b: seq<Ptr>)
    ensures KeysOf(heap, a + b) == KeysOf(heap, a) + KeysOf(heap, b)
  {
  }

  lemma SameKeys(heap: Heap, heap': Heap, walk: seq<Ptr>)
    requires forall i :: 0 <= i < |walk| ==>
               walk[i] in heap && walk[i] in heap' && heap[walk[i]].key == heap'[walk[i]].key
    ensures KeysOf(heap, walk) == KeysOf(heap', walk)
  {
  }

  /** The key is put in front of its bucket. */
  predicate InFront(words: nat, size: nat, was: seq<Key>, now: seq<Key>, key: Key)
    requires |key| == 4 * words && 0 < size
  {
    exists j :: 0 <= j <= |was| && now == was[..j] + [key] + was[j..] && Between(words, size, was, j, key)
  }

  predicate Between(words: nat, size: nat, was: seq<Key>, j: nat, key: Key)
    requires |key| == 4 * words && 0 < size
  {
    && (forall i :: 0 <= i < |was| ==> |was[i]| == 4 * words)
    && (forall i :: 0 <= i < j && i < |was| ==> Bucket(words, size, was[i]) < Bucket(words, size, key))
    && (forall i :: j <= i < |was| ==> Bucket(words, size, key) <= Bucket(words, size, was[i]))
  }

  /** The key is dropped, and the others stay in their order. */
  predicate Dropped(was: seq<Key>, now: seq<Key>, key: Key) {
    exists j :: 0 <= j < |was| && was[j] == key && now == was[..j] + was[j + 1..]
  }

  function BucketOf(heap: Heap, index: Places, p: Ptr): nat {
    if p in heap && heap[p].key in index then index[heap[p].key].bucket else 0
  }

  /** The buckets of the nodes never descend. */
  predicate NeverDescends(heap: Heap, index: Places, walk: seq<Ptr>) {
    forall i, j :: 0 <= i < j < |walk| ==> BucketOf(heap, index, walk[i]) <= BucketOf(heap, index, walk[j])
  }

  lemma {:induction false} BucketsRise(tab: seq<Ptr>, heap: Heap, index: Places, chains: seq<Chain>, b: nat)
    requires TableOk(tab, heap, index, chains) && b <= |tab|
    ensures NeverDescends(heap, index, WalkFrom(chains, b))
    decreases |tab| - b
  {
    hide TableOk, NodeOk;
    AsManyChains(tab, heap, index, chains);
    if b < |tab| {
      BucketsRise(tab, heap, index, chains, b + 1);
      WalkNodes(tab, heap, index, chains, b + 1);
      var ch, rest := chains[b], WalkFrom(chains, b + 1);
      forall i | 0 <= i < |ch|
        ensures BucketOf(heap, index, ch[i]) == b
      {
        ChainNode(tab, heap, index, chains, b, i);
      }
      forall i | 0 <= i < |rest|
        ensures b < BucketOf(heap, index, rest[i])
      {
      }
      var walk := ch + rest;
      forall i, j | 0 <= i < j < |walk|
        ensures BucketOf(heap, index, walk[i]) <= BucketOf(heap, index, walk[j])
      {
        if i < |ch| {
          assert BucketOf(heap, index, ch[i]) == b;
          if j < |ch| {
            assert BucketOf(heap, index, ch[j]) == b;
          } else {
            assert b < BucketOf(heap, index, rest[j - |ch|]);
          }
        } else {
          assert BucketOf(heap, index, rest[i - |ch|]) <= BucketOf(heap, index, rest[j - |ch|]);
        }
      }
    }
  }

  lemma FrontIsBelow(tab: seq<Ptr>, heap: Heap, index: Places, chains: seq<Chain>, front: seq<Ptr>, h: nat)
    requires TableOk(tab, heap, index, chains) && h <= |chains| == |tab|
    requires forall p :: p in front ==> exists d :: 0 <= d < h && p in chains[d]
    ensures forall p :: p in front ==> p in heap && heap[p].key in index && index[heap[p].key].bucket < h
  {
    hide TableOk, NodeOk;
    forall p | p in front
      ensures p in heap && heap[p].key in index && index[heap[p].key].bucket < h
    {
      var d :| 0 <= d < h && p in chains[d];
      var i :| 0 <= i < |chains[d]| && chains[d][i] == p;
      ChainNode(tab, heap, index, chains, d, i);
    }
  }

  lemma KeyBetween(words: nat, size: nat, heap: Heap, index: Places, front: seq<Ptr>, rest: seq<Ptr>, h: nat, key: Key)
    requires 0 < size && |key| == 4 * words && h == Bucket(words, size, key) && Hashed(words, size, index)
    requires forall p :: p in front ==> p in heap && heap[p].key in index && index[heap[p].key].bucket < h
    requires forall p :: p in rest ==> p in heap && heap[p].key in index && h <= index[heap[p].key].bucket
    ensures Between(words, size, KeysOf(heap, front) + KeysOf(heap, rest), |front|, key)
  {
    hide Bucket;
    var keys := KeysOf(heap, front) + KeysOf(heap, rest);
    forall i | 0 <= i < |keys|
      ensures |keys[i]| == 4 * words
      ensures if i < |front| then Bucket(words, size, keys[i]) < h else h <= Bucket(words, size, keys[i])
    {
      var p := if i < |front| then front[i] else rest[i - |front|];
      assert if i < |front| then p in front else p in rest;
      assert keys[i] == heap[p].key;
    }
  }

  /** A key that is installed is the first one of its bucket. */
  lemma PushedOrder(words: nat, tab: seq<Ptr>, heap: Heap, index: Places, chains: seq<Chain>, np: Ptr, n: DList, h: nat)
    requires TableOk(tab, heap, index, chains) && 0 < |tab| && Hashed(words, |tab|, index)
    requires |n.key| == 4 * words && h == Bucket(words, |tab|, n.key) && np !in heap && |chains| == |tab|
    ensures InFront(words, |tab|, KeysOf(heap, WalkFrom(chains, 0)),
                    KeysOf(heap[np := n], WalkFrom(chains[h := [np] + chains[h]], 0)), n.key)
  {
    hide TableOk, Hashed, Bucket, Between, KeysOf, WalkFrom;
    var front := WalkAround(chains, 0, h, [np] + chains[h]);
    var back, heap' := WalkFrom(chains, h + 1), heap[np := n];
    var rest := chains[h] + back;
    assert front + chains[h] + back == front + rest && front + ([np] + chains[h]) + back == front + [np] + rest;
    assert WalkFrom(chains, h) == rest by { WalkStep(chains, h); }
    WalkNodes(tab, heap, index, chains, h);
    FrontIsBelow(tab, heap, index, chains, front, h);
    KeysAppend(heap, front, rest);
    KeysAppend(heap', front + [np], rest);
    KeysAppend(heap', front, [np]);
    SameKeys(heap, heap', front);
    SameKeys(heap, heap', rest);
    OneKey(heap', np);
    KeyBetween(words, |tab|, heap, index, front, rest, h, n.key);
    var was := KeysOf(heap, front + rest);
    assert was[..|front|] == KeysOf(heap, front) && was[|front|..] == KeysOf(heap, rest);
  }

  lemma WalkStep(chains: seq<Chain>, b: nat)
    requires b < |chains|
    ensures WalkFrom(chains, b) == chains[b] + WalkFrom(chains, b + 1)
  {
  }

  lemma OneKey(heap: Heap, p: Ptr)
    requires p in heap
    ensures KeysOf(heap, [p]) == [heap[p].key]
  {
  }

  lemma WalkWithout(chains: seq<Chain>, h: nat, i: nat) returns (a: seq<Ptr>, b: seq<Ptr>)
    requires h < |chains| && i < |chains[h]|
    ensures WalkFrom(chains, 0) == a + [chains[h][i]] + b
    ensures WalkFrom(chains[h := Without(chains[h], i)], 0) == a + b
  {
    hide WalkFrom, Without;
    var ch, back := chains[h], WalkFrom(chains, h + 1);
    var front := WalkAround(chains, 0, h, Without(ch, i));
    CutOut(ch, i);
    Regroup(front, ch[..i], [ch[i]], ch[i + 1..], back);
    a, b := front + ch[..i], ch[i + 1..] + back;
  }

  lemma CutOut(chain: Chain, i: nat)
    requires i < |chain|
    ensures Without(chain, i) == chain[..i] + chain[i + 1..]
    ensures chain == chain[..i] + [chain[i]] + chain[i + 1..]
  {
  }

  lemma Regroup(front: seq<Ptr>, x: seq<Ptr>, p: seq<Ptr>, y: seq<Ptr>, back: seq<Ptr>)
    ensures front + (x + p + y) + back == (front + x) + p + (y + back)
    ensures front + (x + y) + back == (front + x) + (y + back)
  {
    assert front + (x + y) == front + x + y;
    assert front + (x + p + y) == front + x + p + y;
  }

  lemma KeysWithout(heap: Heap, heap': Heap, a: seq<Ptr>, p: Ptr, b: seq<Ptr>)
    requires p in heap && heap'.Keys == heap.Keys - {p}
    requires forall q :: q in heap' ==> heap'[q].key == heap[q].key
    requires forall q :: q in a + b ==> q in heap && q != p
    ensures Dropped(KeysOf(heap, a + [p] + b), KeysOf(heap', a + b), heap[p].key)
  {
    hide KeysOf;
    SameKeys(heap, heap', a + b);
    KeysAppend(heap, a, b);
    KeysAppend(heap, a + [p], b);
    KeysAppend(heap, a, [p]);
    OneKey(heap, p);
    var was := KeysOf(heap, a + [p] + b);
    assert was[|a|] == heap[p].key && was[..|a|] == KeysOf(heap, a) && was[|a| + 1..] == KeysOf(heap, b);
  }

  lemma OthersDiffer(walk: seq<Ptr>, a: seq<Ptr>, p: Ptr, b: seq<Ptr>)
    requires walk == a + [p] + b && forall i, j :: 0 <= i < j < |walk| ==> walk[i] != walk[j]
    ensures forall q :: q in a + b ==> q in walk && q != p
  {
    forall q | q in a + b
      ensures q in walk && q != p
    {
      var j :| 0 <= j < |a + b| && (a + b)[j] == q;
      assert walk[if j < |a| then j else j + 1] == q && walk[|a|] == p;
    }
  }

  /** A key that is removed leaves the others in their order. */
  lemma UnlinkedOrder(tab: seq<Ptr>, heap: Heap, index: Places, chains: seq<Chain>, h: nat, i: nat)
    requires TableOk(tab, heap, index, chains) && h < |tab| == |chains| && i < |chains[h]|
    requires chains[h][i] in heap && (0 < i ==> chains[h][i - 1] in heap)
    ensures Dropped(KeysOf(heap, WalkFrom(chains, 0)),
                    KeysOf(Unlinked(heap, chains[h], i), WalkFrom(chains[h := Without(chains[h], i)], 0)),
                    heap[chains[h][i]].key)
  {
    hide TableOk, KeysOf, WalkFrom, Unlinked, Without, Dropped;
    var p := chains[h][i];
    var a, b := WalkWithout(chains, h, i);
    WalkNodes(tab, heap, index, chains, 0);
    UnlinkedKeys(heap, chains[h], i);
    OthersDiffer(WalkFrom(chains, 0), a, p, b);
    KeysWithout(heap, Unlinked(heap, chains[h], i), a, p, b);
  }

  lemma SameSizes(tab: seq<Ptr>, heap: Heap, index: Places, chains: seq<Chain>)
    requires TableOk(tab, heap, index, chains)
    ensures |index| == |heap|
  {
    hide TableOk, WalkFrom;
    WalkNodes(tab, heap, index, chains, 0);
    WalkIsComplete(tab, heap, index, chains);
    NodesMet(tab, heap, index, chains);
    var walk := WalkFrom(chains, 0);
    ListOf(KeysOf(heap, walk), index.Keys);
    ListOf(walk, heap.Keys);
  }

  lemma NodesMet(tab: seq<Ptr>, heap: Heap, index: Places, chains: seq<Chain>)
    requires TableOk(tab, heap, index, chains)
    ensures forall p :: p in heap ==> p in WalkFrom(chains, 0)
  {
    hide ChainOk, WalkFrom;
    forall p | p in heap
      ensures p in WalkFrom(chains, 0)
    {
      WalkReaches(chains, 0, index[heap[p].key].bucket, p);
    }
  }

  lemma NoChainsNoKeys(tab: seq<Ptr>, heap: Heap, index: Places, chains: seq<Chain>)
    requires TableOk(tab, heap, index, chains) && forall b :: 0 <= b < |tab| ==> chains[b] == []
    ensures index == map[] && ContentsOf(heap, index) == map[] && heap == map[]
  {
    hide ChainOk;
    forall k
      ensures k !in index
    {
    }
    forall p
      ensures p !in heap
    {
    }
  }

  // ---------------------------------------------------------------- sorted walks

  type Compare = (Key, Key) -> int

  /** cmp orders the keys strictly and totally. */
  ghost predicate TotalOrder(cmp: Compare, keys: set<Key>) {
    && (forall a, b :: a in keys && b in keys ==> (cmp(a, b) == 0 <==> a == b))
    && (forall a, b :: a in keys && b in keys ==> (cmp(a, b) < 0 <==> cmp(b, a) > 0))
    && (forall a, b, c :: a in keys && b in keys && c in keys && cmp(a, b) < 0 && cmp(b, c) < 0 ==> cmp(a, c) < 0)
  }

  ghost predicate IsLeast(cmp: Compare, keys: set<Key>, a: Key) {
    a in keys && forall k :: k in keys ==> cmp(a, k) <= 0
  }

  /** b is the least key above a. */
  ghost predicate IsNext(cmp: Compare, keys: set<Key>, a: Key, b: Key) {
    b in keys && cmp(a, b) < 0 && forall k :: k in keys && cmp(a, k) < 0 ==> cmp(b, k) <= 0
  }

  ghost predicate IsGreatest(cmp: Compare, keys: set<Key>, a: Key) {
    forall k :: k in keys ==> cmp(a, k) >= 0
  }

  /** The results of a sorted walk so far: the least key first, then always the next one. */
  ghost predicate Ascent(cmp: Compare, keys: set<Key>, ks: seq<Key>) {
    && (ks != [] ==> IsLeast(cmp, keys, ks[0]))
    && forall i :: 0 < i < |ks| ==> IsNext(cmp, keys, ks[i - 1], ks[i])
  }

  /** A sorted walk ends when there is no key, or none above the last result. */
  ghost predicate SortedWalk(cmp: Compare, keys: set<Key>, ks: seq<Key>) {
    && Ascent(cmp, keys, ks)
    && if ks == [] then keys == {} else IsGreatest(cmp, keys, ks[|ks| - 1])
  }

  lemma KeyAbove(cmp: Compare, keys: set<Key>, a: Key, b: Key, c: Key)
    requires TotalOrder(cmp, keys) && a in keys && b in keys && c in keys && cmp(a, b) < 0 && cmp(b, c) < 0
    ensures cmp(a, c) < 0
  {
  }

  lemma KeyOrder(cmp: Compare, keys: set<Key>, a: Key, b: Key)
    requires TotalOrder(cmp, keys) && a in keys && b in keys
    ensures cmp(a, b) == 0 <==> a == b
    ensures cmp(a, b) < 0 <==> cmp(b, a) > 0
    ensures cmp(b, a) < 0 <==> cmp(a, b) > 0
  {
  }

  /** Rising keys among which is every key up to the last one. */
  ghost predicate Rising(cmp: Compare, keys: set<Key>, ks: seq<Key>) {
    && (forall i :: 0 <= i < |ks| ==> ks[i] in keys)
    && (forall i, j :: 0 <= i < j < |ks| ==> cmp(ks[i], ks[j]) < 0)
    && (ks != [] ==> forall k :: k in keys && cmp(k, ks[|ks| - 1]) <= 0 ==> k in ks)
  }

  lemma RisesOn(cmp: Compare, keys: set<Key>, ks: seq<Key>, x: Key)
    requires TotalOrder(cmp, keys) && ks != [] && Rising(cmp, keys, ks) && IsNext(cmp, keys, ks[|ks| - 1], x)
    ensures Rising(cmp, keys, ks + [x])
  {
    hide TotalOrder;
    var n := |ks|;
    forall i | 0 <= i < n
      ensures cmp(ks[i], x) < 0
    {
      if i < n - 1 { KeyAbove(cmp, keys, ks[i], ks[n - 1], x); }
    }
    forall k | k in keys && cmp(k, x) <= 0
      ensures k in ks + [x]
    {
      KeyOrder(cmp, keys, ks[n - 1], k);
      KeyOrder(cmp, keys, x, k);
      assert k in ks || k == x;
    }
  }

  lemma RisesFrom(cmp: Compare, keys: set<Key>, x: Key)
    requires TotalOrder(cmp, keys) && IsLeast(cmp, keys, x)
    ensures Rising(cmp, keys, [x])
  {
    hide TotalOrder;
    forall k | k in keys && cmp(k, x) <= 0
      ensures k in [x]
    {
      KeyOrder(cmp, keys, x, k);
    }
  }

  /** The keys of an ascent rise, and it has met every key up to its last one. */
  lemma {:induction false} AscentRises(cmp: Compare, keys: set<Key>, ks: seq<Key>)
    requires TotalOrder(cmp, keys) && Ascent(cmp, keys, ks)
    ensures Rising(cmp, keys, ks)
  {
    hide TotalOrder, IsLeast, IsNext;
    var n := |ks| - 1;
    if n > 0 {
      hide Rising;
      AscentRises(cmp, keys, ks[..n]);
      assert ks[..n] + [ks[n]] == ks;
      assert IsNext(cmp, keys, ks[n - 1], ks[n]);
      RisesOn(cmp, keys, ks[..n], ks[n]);
    } else if n == 0 {
      assert ks == [ks[0]];
      RisesFrom(cmp, keys, ks[0]);
    }
  }

  /** No ascent has more results than there are keys. */
  lemma AscentFits(cmp: Compare, keys: set<Key>, ks: seq<Key>)
    requires TotalOrder(cmp, keys) && Ascent(cmp, keys, ks)
    ensures |ks| <= |keys|
    ensures (forall k :: k in keys ==> k in ks) ==> |ks| == |keys|
  {
    AscentRises(cmp, keys, ks);
    hide Ascent;
    forall i, j | 0 <= i < j < |ks|
      ensures ks[i] != ks[j]
    {
      KeyOrder(cmp, keys, ks[i], ks[j]);
    }
    AsManyAsElements(ks);
    var met := set k | k in ks;
    assert met <= keys;
    SubsetSize(met, keys);
    if forall k :: k in keys ==> k in ks { assert met == keys; }
  }

  /** A sorted walk yields every key exactly once, in strictly increasing order, and so ends after as many results. */
  lemma SortedWalkIsComplete(cmp: Compare, keys: set<Key>, ks: seq<Key>)
    requires TotalOrder(cmp, keys) && SortedWalk(cmp, keys, ks)
    ensures forall i, j :: 0 <= i < j < |ks| ==> cmp(ks[i], ks[j]) < 0
    ensures forall k :: k in keys <==> k in ks
    ensures |ks| == |keys|
  {
    hide TotalOrder;
    AscentRises(cmp, keys, ks);
    forall k | k in keys
      ensures k in ks
    {
      if ks != [] { KeyOrder(cmp, keys, ks[|ks| - 1], k); }
    }
    AscentFits(cmp, keys, ks);
  }

  // ---------------------------------------------------------------- walking step by step

  /** The order of a walk: that of the chains, or that of a comparison of keys. */
  datatype Order = Unsorted | By(cmp: Compare)

  class DictionaryIt {
    var np: Ptr
    var prev: Ptr
    var idx: int
    var order: Order
    ghost var pos: nat
    /** The nodes that an unsorted walk still has to visit. */
    ghost var rest: seq<Ptr>

    constructor ()
      ensures np == NULL && idx == -1 && order == Unsorted
    {
      np, prev, idx, order := NULL, NULL, -1, Unsorted;
      pos, rest := 0, [];
    }
  }

  /** p has the least key of the nodes seen. */
  ghost predicate LeastOf(cmp: Compare, heap: Heap, seen: seq<Ptr>, p: Ptr) {
    && p in heap
    && forall i :: 0 <= i < |seen| ==> seen[i] in heap && cmp(heap[p].key, heap[seen[i]].key) <= 0
  }

  lemma LeastNext(cmp: Compare, keys: set<Key>, heap: Heap, seen: seq<Ptr>, p: Ptr, q: Ptr)
    requires TotalOrder(cmp, keys) && LeastOf(cmp, heap, seen, p)
    requires q in heap && heap[q].key in keys && heap[p].key in keys
    requires forall i :: 0 <= i < |seen| ==> seen[i] in heap && heap[seen[i]].key in keys
    ensures LeastOf(cmp, heap, seen + [q], if cmp(heap[p].key, heap[q].key) > 0 then q else p)
  {
    hide TotalOrder;
    KeyOrder(cmp, keys, heap[p].key, heap[q].key);
    KeyOrder(cmp, keys, heap[q].key, heap[q].key);
    if cmp(heap[p].key, heap[q].key) > 0 {
      forall i | 0 <= i < |seen|
        ensures cmp(heap[q].key, heap[seen[i]].key) <= 0
      {
        KeyOrder(cmp, keys, heap[p].key, heap[seen[i]].key);
        if cmp(heap[p].key, heap[seen[i]].key) < 0 { KeyAbove(cmp, keys, heap[q].key, heap[p].key, heap[seen[i]].key); }
      }
    }
  }

  lemma LeastOfOne(cmp: Compare, keys: set<Key>, heap: Heap, p: Ptr)
    requires TotalOrder(cmp, keys) && p in heap && heap[p].key in keys
    ensures LeastOf(cmp, heap, [p], p)
  {
    KeyOrder(cmp, keys, heap[p].key, heap[p].key);
  }

  /** The nodes seen whose keys are above a. */
  function Above(cmp: Compare, heap: Heap, seen: seq<Ptr>, a: Key): seq<Ptr>
    requires forall i :: 0 <= i < |seen| ==> seen[i] in heap
  {
    if seen == [] then []
    else
      var q := seen[|seen| - 1];
      Above(cmp, heap, seen[..|seen| - 1], a) + if cmp(a, heap[q].key) < 0 then [q] else []
  }

  lemma {:induction false} AboveMeans(cmp: Compare, heap: Heap, seen: seq<Ptr>, a: Key)
    requires forall i :: 0 <= i < |seen| ==> seen[i] in heap
    ensures forall q :: q in Above(cmp, heap, seen, a) <==> q in seen && cmp(a, heap[q].key) < 0
  {
    if seen != [] {
      AboveMeans(cmp, heap, seen[..|seen| - 1], a);
      assert seen == seen[..|seen| - 1] + [seen[|seen| - 1]];
    }
  }

  lemma AboveNext(cmp: Compare, heap: Heap, seen: seq<Ptr>, a: Key, q: Ptr)
    requires (forall i :: 0 <= i < |seen| ==> seen[i] in heap) && q in heap
    ensures Above(cmp, heap, seen + [q], a) == Above(cmp, heap, seen, a) + if cmp(a, heap[q].key) < 0 then [q] else []
  {
    assert (seen + [q])[..|seen|] == seen;
  }

  lemma WalkSkips(chains: seq<Chain>, b: nat)
    requires b < |chains|
    ensures Nth(chains[b], 0) == NULL && NULL !in chains[b] ==> WalkFrom(chains, b) == WalkFrom(chains, b + 1)
    ensures Nth(chains[b], 0) != NULL ==>
              var walk := WalkFrom(chains, b);
              walk != [] && walk[0] == chains[b][0] && walk[1..] == chains[b][1..] + WalkFrom(chains, b + 1)
  {
    var ch, rest := chains[b], WalkFrom(chains, b + 1);
    assert WalkFrom(chains, b) == ch + rest;
    hide WalkFrom;
    if ch == [] {
      assert ch + rest == rest;
    } else {
      assert ch[0] in ch;
      assert (ch + rest)[1..] == ch[1..] + rest;
    }
  }

  // ---------------------------------------------------------------- the table as an object

  class Dictionary {
    const keyWords: nat
    const hashSize: nat
    const hashtab: array<Ptr>
    var heap: Heap
    var count: nat
    ghost var chains: seq<Chain>
    ghost var index: Places

    ghost predicate Valid()
      reads this, hashtab
    {
      && 0 < hashSize == hashtab.Length
      && TableOk(hashtab[..], heap, index, chains)
      && Hashed(keyWords, hashSize, index)
      && count == |index|
    }

    /** The map that the table stands for. */
    ghost function Contents(): map<Key, Entry>
      reads this
    {
      ContentsOf(heap, index)
    }

    /** The keys in the order of an unsorted walk. */
    ghost function Walk(): (keys: seq<Key>)
      reads this
      ensures |keys| == |WalkFrom(chains, 0)|
    {
      KeysOf(heap, WalkFrom(chains, 0))
    }

    /** A walk meets each key of the map once, at its node, so that there are as many nodes as count says. */
    lemma WalkOnce()
      requires Valid()
      ensures forall i :: 0 <= i < |Walk()| ==>
                var p := WalkFrom(chains, 0)[i];
                p != NULL && p in heap && Walk()[i] == heap[p].key && heap[p].key in Contents()
                  && Contents()[heap[p].key] == heap[p].value
      ensures forall k :: k in Contents() ==> k in Walk()
      ensures forall i, j :: 0 <= i < j < |Walk()| ==>
                Walk()[i] != Walk()[j] && WalkFrom(chains, 0)[i] != WalkFrom(chains, 0)[j]
    {
      hide Bucket, TableOk, Hashed, WalkFrom;
      WalkNodes(hashtab[..], heap, index, chains, 0);
      WalkIsComplete(hashtab[..], heap, index, chains);
      forall i | 0 <= i < |Walk()|
        ensures var p := WalkFrom(chains, 0)[i]; heap[p].key in Contents() && Contents()[heap[p].key] == heap[p].value
      {
        NodeValue(WalkFrom(chains, 0)[i]);
      }
      forall k | k in Contents()
        ensures k in Walk()
      {
        assert k in index;
      }
    }

    /** A walk goes through the buckets in turn, and the bucket of a key is its word sum modulo their number. */
    lemma WalkByBucket()
      requires Valid()
      ensures forall i :: 0 <= i < |Walk()| ==> |Walk()[i]| == 4 * keyWords
      ensures forall i, j :: 0 <= i < j < |Walk()| ==>
                WordSum(Walk()[i], keyWords) % hashSize <= WordSum(Walk()[j], keyWords) % hashSize
    {
      hide TableOk, WalkFrom, WordSum, Hashed;
      BucketsRise(hashtab[..], heap, index, chains, 0);
      WalkNodes(hashtab[..], heap, index, chains, 0);
      forall i | 0 <= i < |Walk()|
        ensures |Walk()[i]| == 4 * keyWords
        ensures BucketOf(heap, index, WalkFrom(chains, 0)[i]) == WordSum(Walk()[i], keyWords) % hashSize
      {
        HashedBucket(Walk()[i]);
      }
      forall i, j | 0 <= i < j < |Walk()|
        ensures WordSum(Walk()[i], keyWords) % hashSize <= WordSum(Walk()[j], keyWords) % hashSize
      {
        assert BucketOf(heap, index, WalkFrom(chains, 0)[i]) <= BucketOf(heap, index, WalkFrom(chains, 0)[j]);
      }
    }

    lemma HashedBucket(key: Key)
      requires 0 < hashSize && Hashed(keyWords, hashSize, index) && key in index
      ensures |key| == 4 * keyWords && index[key].bucket == WordSum(key, keyWords) % hashSize
    {
      hide WordSum;
    }

    lemma NodeValue(p: Ptr)
      requires Valid() && p in heap
      ensures heap[p].key in Contents() && Contents()[heap[p].key] == heap[p].value && |heap[p].key| == 4 * keyWords
    {
      hide Bucket, TableOk;
      NodeIsIndexed(hashtab[..], heap, index, chains, p);
    }

    /** count is the number of keys, and also that of the nodes. */
    lemma CountIsSize()
      requires Valid()
      ensures count == |Contents()| == |heap|
    {
      hide Bucket, TableOk, Hashed;
      TableOwns(hashtab[..], heap, index, chains);
      SameSizes(hashtab[..], heap, index, chains);
      assert Contents().Keys == index.Keys;
      assert |Contents().Keys| == |index.Keys|;
    }

    constructor (words: nat, size: nat)
      requires 0 < size
      ensures Valid() && fresh(hashtab) && Contents() == map[] && keyWords == words && hashSize == size
    {
      keyWords, hashSize := words, size;
      hashtab := new Ptr[size](_ => NULL);
      heap := map[];
      count := 0;
      chains := seq(size, _ => []);
      index := map[];
    }

    method KeyHash(key: Key) returns (h: nat)
      requires |key| == 4 * keyWords && 0 < hashSize
      ensures h == Bucket(keyWords, hashSize, key) == WordSum(key, keyWords) % hashSize
    {
      var hash := 0;
      var i := 0;
      while i < keyWords
        invariant 0 <= i <= keyWords
        invariant hash == WordSum(key, i)
      {
        hash := (hash + WordAt(key, i)) % 0x1_0000_0000;
        i := i + 1;
      }
      h := hash % hashSize;
    }

    method KeyCmp(np: Ptr, key: Key) returns (same: bool)
      requires np in heap && |key| == |heap[np].key| == 4 * keyWords
      ensures same <==> heap[np].key == key
    {
      var nodeKey := heap[np].key;
      SameWords(nodeKey, key, keyWords);
      same := true;
      var i := 0;
      while i < keyWords
        invariant 0 <= i <= keyWords
        invariant forall j :: 0 <= j < i ==> WordAt(nodeKey, j) == WordAt(key, j)
      {
        if WordAt(key, i) != WordAt(nodeKey, i) {
          same := false;
          break;
        }
        i := i + 1;
      }
    }

    /** What Search has found for a key. */
    ghost predicate Found(key: Key, h: nat, prev: Ptr, np: Ptr, i: nat)
      reads this
    {
      && h < |chains| && i < |chains[h]|
      && np == chains[h][i] && np != NULL && np in heap && heap[np].key == key
      && prev == if i == 0 then NULL else chains[h][i - 1]
    }

    /** Walks the chain of a key up to its node, remembering the predecessor. */
    method Search(key: Key) returns (h: nat, prev: Ptr, np: Ptr, ghost i: nat)
      requires Valid() && |key| == 4 * keyWords
      ensures h < hashSize
      ensures if key in index then Found(key, h, prev, np, i) else np == NULL
    {
      hide Bucket, TableOk, NodeOk, Hashed, Passed;
      h := KeyHash(key);
      HeadFacts(hashtab[..], heap, index, chains, h);
      prev := NULL;
      np := hashtab[h];
      assert np == hashtab[..][h];
      i := 0;
      ghost var ch := chains[h];
      NothingPassed(ch, key);
      while np != NULL
        invariant 0 <= i <= |ch| && np == Nth(ch, i)
        invariant prev == if i == 0 then NULL else ch[i - 1]
        invariant Passed(heap, ch, i, key)
        decreases |ch| - i
      {
        NodeHere(h, i);
        var same := KeyCmp(np, key);
        if same { return; }
        PassNext(heap, ch, i, key);
        prev := np;
        np := heap[np].next;
        i := i + 1;
      }
      if i < |ch| { NodeHere(h, i); }
      Missing(keyWords, hashtab[..], heap, index, chains, key);
    }

    lemma NothingPassed(ch: Chain, key: Key)
      ensures Passed(heap, ch, 0, key)
    {
    }

    lemma NodeHere(b: nat, i: nat)
      requires Valid() && b < |chains| && i < |chains[b]|
      ensures chains[b][i] != NULL && chains[b][i] in heap && heap[chains[b][i]].next == Nth(chains[b], i + 1)
      ensures |heap[chains[b][i]].key| == 4 * keyWords && heap[chains[b][i]].key in index
    {
      hide Bucket, IndexOk, ChainOk;
      NodeFacts(hashtab[..], heap, index, chains, b, i);
    }

    /** Finds the node of a key, or null. */
    method Lookup(key: Key) returns (np: Ptr)
      requires Valid() && |key| == 4 * keyWords
      ensures np != NULL <==> key in Contents()
      ensures np != NULL ==> np in heap && heap[np].key == key && heap[np].value == Contents()[key]
    {
      hide Bucket, TableOk, ContentsOf, Hashed;
      var h, prev, p, i := Search(key);
      np := p;
      ContentsHas(hashtab[..], heap, index, chains, key);
      if np != NULL { NodeIsIndexed(hashtab[..], heap, index, chains, np); }
    }

    /** malloc: an address that is neither null nor in use. */
    method Malloc(n: DList) returns (np: Ptr)
      modifies this`heap
      ensures np != NULL && np !in old(heap) && heap == old(heap)[np := n]
    {
      FreshPtr(heap.Keys);
      np :| np != NULL && np !in heap;
      heap := heap[np := n];
    }

    static lemma FreshPtr(used: set<Ptr>)
      ensures exists p: Ptr :: p != NULL && p !in used
    {
      var bound := 1;
      var rest := used;
      while rest != {}
        invariant 1 <= bound && rest <= used
        invariant forall p :: p in used - rest ==> p < bound
        decreases |rest|
      {
        var p :| p in rest;
        rest := rest - {p};
        bound := if bound <= p then p + 1 else bound;
      }
      assert used - rest == used;
      assert bound != NULL && bound !in used;
    }

    /** Puts a new node, its value not set yet, at the head of its chain, unless the key is there. */
    method InstallSize(key: Key) returns (np: Ptr)
      requires Valid() && |key| == 4 * keyWords
      modifies this, hashtab
      ensures Valid() && np in heap && heap[np].key == key
      ensures Contents() == old(Contents())[key := heap[np].value]
      ensures key in old(Contents()) ==>
                Contents() == old(Contents()) && heap[np].value == old(Contents())[key] && Walk() == old(Walk())
      ensures key !in old(Contents()) ==> InFront(keyWords, hashSize, old(Walk()), Walk(), key)
    {
      hide Bucket, TableOk, ContentsOf, Hashed, InFront, WalkFrom, KeysOf;
      np := Lookup(key);
      if np == NULL {
        np := Push(key);
      } else {
        assert Contents() == Contents()[key := heap[np].value];
      }
    }

    method Push(key: Key) returns (np: Ptr)
      requires Valid() && |key| == 4 * keyWords && key !in Contents()
      modifies this, hashtab
      ensures Valid() && np in heap && heap[np].key == key
      ensures Contents() == old(Contents())[key := heap[np].value]
      ensures InFront(keyWords, hashSize, old(Walk()), Walk(), key)
    {
      hide Bucket, TableOk, ContentsOf, Hashed, InFront, WalkFrom, KeysOf;
      var h := KeyHash(key);
      ContentsHas(hashtab[..], heap, index, chains, key);
      HeadFacts(hashtab[..], heap, index, chains, h);
      var e: Entry := *;
      var n := DList(hashtab[h], key, e);
      ghost var was, tab := heap, hashtab[..];
      assert n.next == tab[h];
      np := Malloc(n);
      PushOk(tab, was, index, chains, np, n, h);
      PushedOrder(keyWords, tab, was, index, chains, np, n, h);
      HashedPush(key, np, h);
      hashtab[h] := np;
      count := count + 1;
      chains := chains[h := [np] + chains[h]];
      index := index[key := Place(np, h)];
      assert hashtab[..] == tab[h := np];
      assert |index.Keys| == |old(index).Keys| + 1;
    }

    lemma HashedPush(key: Key, np: Ptr, h: nat)
      requires 0 < hashSize && Hashed(keyWords, hashSize, index) && |key| == 4 * keyWords
               && h == Bucket(keyWords, hashSize, key)
      ensures Hashed(keyWords, hashSize, index[key := Place(np, h)])
    {
      hide Bucket;
    }

    /** The caller of InstallSize and the swap write to the value through the node. */
    method SetValue(np: Ptr, e: Entry)
      requires Valid() && np in heap
      modifies this`heap
      ensures Valid() && heap == old(heap)[np := old(heap)[np].(value := e)]
      ensures Contents() == old(Contents())[heap[np].key := e] && Walk() == old(Walk())
    {
      hide Bucket, TableOk, ContentsOf, Hashed, WalkFrom;
      SetValueOk(hashtab[..], heap, index, chains, np, e);
      heap := heap[np := heap[np].(value := e)];
    }

    /** Unlinks and frees the node of a key. */
    method Remove(key: Key) returns (found: bool)
      requires Valid() && |key| == 4 * keyWords
      modifies this, hashtab
      ensures Valid() && found == (key in old(Contents())) && Contents() == old(Contents()) - {key}
      ensures if found then Dropped(old(Walk()), Walk(), key) else Walk() == old(Walk())
    {
      hide Bucket, TableOk, ContentsOf, Hashed, WalkFrom, KeysOf, Dropped;
      var h, prev, np, i := Search(key);
      ContentsHas(hashtab[..], heap, index, chains, key);
      if np == NULL {
        assert Contents() == Contents() - {key};
        return false;
      }
      Unlink(h, prev, np, i);
      return true;
    }

    /** Frees node i of chain h, which prev leads to if it has a predecessor. */
    method Unlink(h: nat, prev: Ptr, np: Ptr, ghost i: nat)
      requires Valid() && h < hashSize && np in heap && Found(heap[np].key, h, prev, np, i)
      modifies this, hashtab
      ensures Valid() && |chains| == |old(chains)| && chains == old(chains)[h := Without(old(chains)[h], i)]
      ensures old(heap[np]).key in old(Contents()) && Contents() == old(Contents()) - {old(heap[np]).key}
      ensures Dropped(old(Walk()), Walk(), old(heap[np]).key)
    {
      hide Bucket, TableOk, ContentsOf, Without, Hashed, NodeOk, WalkFrom, KeysOf, Dropped;
      ghost var key, ch, was, tab := heap[np].key, chains[h], heap, hashtab[..];
      HeadFacts(tab, heap, index, chains, h);
      NodeHere(h, i);
      if 0 < i { Predecessor(h, i); }
      UnlinkOk(tab, was, index, chains, h, i);
      UnlinkedOrder(tab, was, index, chains, h, i);
      ContentsHas(tab, heap, index, chains, key);
      HashedRemove(key);
      count := count - 1;
      if prev != NULL {
        heap := heap[prev := heap[prev].(next := heap[np].next)];
      } else {
        hashtab[h] := heap[np].next;
      }
      heap := heap - {np};
      chains := chains[h := Without(ch, i)];
      index := index - {key};
      assert hashtab[..] == HeadWithout(tab, was, ch, h, i);
      assert |index.Keys| == |old(index).Keys| - 1;
    }

    lemma Predecessor(h: nat, i: nat)
      requires Valid() && h < |chains| && 0 < i < |chains[h]|
      ensures chains[h][i - 1] != NULL && chains[h][i - 1] in heap && chains[h][i - 1] != chains[h][i]
    {
      hide Bucket, IndexOk, Hashed;
      assert ChainOk(heap, index, h, chains[h]);
      NodeFacts(hashtab[..], heap, index, chains, h, i - 1);
    }

    /** Frees every node, bucket by bucket. */
    method RemoveAll()
      requires Valid()
      modifies this, hashtab
      ensures Valid() && Contents() == map[] && heap == map[] && count == 0
    {
      hide Bucket, TableOk, ContentsOf, Hashed, NodeOk, Without;
      var i := 0;
      AsManyChains(hashtab[..], heap, index, chains);
      while i < hashSize
        invariant 0 <= i <= hashSize == |chains| && Valid()
        invariant forall b :: 0 <= b < i ==> chains[b] == []
      {
        HeadFacts(hashtab[..], heap, index, chains, i);
        var np := hashtab[i];
        assert np == hashtab[..][i];
        while np != NULL
          invariant |chains| == hashSize && Valid() && np == Nth(chains[i], 0)
          invariant forall b :: 0 <= b < i ==> chains[b] == []
          decreases |chains[i]|
        {
          NodeHere(i, 0);
          Unlink(i, NULL, np, 0);
          HeadFacts(hashtab[..], heap, index, chains, i);
          np := hashtab[i];
          assert np == hashtab[..][i];
        }
        NoNull(i);
        i := i + 1;
      }
      NoChainsNoKeys(hashtab[..], heap, index, chains);
    }

    /** A chain without a head is empty. */
    lemma NoNull(b: nat)
      requires Valid() && b < |chains|
      ensures NULL !in chains[b] && (Nth(chains[b], 0) == NULL ==> chains[b] == [])
    {
      hide Bucket, TableOk, Hashed;
      forall i: nat | i < |chains[b]|
        ensures chains[b][i] != NULL
      {
        NodeHere(b, i);
      }
    }

    /** Where an unsorted walk stands: it depends on the chains alone, so values may be written meanwhile. */
    ghost predicate At(it: DictionaryIt)
      reads `chains, it
    {
      && -1 <= it.idx < |chains|
      && if it.np == NULL then it.rest == WalkFrom(chains, it.idx + 1)
         else
           && 0 <= it.idx && it.pos < |chains[it.idx]| && it.np == chains[it.idx][it.pos]
           && it.rest == chains[it.idx][it.pos + 1..] + WalkFrom(chains, it.idx + 1)
    }

    /** One step of an unsorted walk. */
    method StepIt(it: DictionaryIt) returns (p: Ptr)
      requires Valid() && At(it)
      modifies it
      ensures At(it) && it.np == p && it.order == old(it.order)
      ensures if old(it.rest) == [] then p == NULL && it.rest == []
              else p == old(it.rest)[0] && p != NULL && p in heap && it.rest == old(it.rest)[1..]
    {
      hide Bucket, TableOk, ContentsOf, Hashed, NodeOk, WalkFrom;
      AsManyChains(hashtab[..], heap, index, chains);
      if it.np != NULL {
        NodeHere(it.idx, it.pos);
        if heap[it.np].next != NULL {
          NodeHere(it.idx, it.pos + 1);
          it.prev := it.np;
          it.np := heap[it.np].next;
          it.pos := it.pos + 1;
          it.rest := it.rest[1..];
          return it.np;
        }
        NextIsNull(it.idx, it.pos);
      }
      it.prev := NULL;
      p := StepChain(it);
    }

    /** The rest of _it_next: on to the first node of the next chain that has one. */
    method StepChain(it: DictionaryIt) returns (p: Ptr)
      requires Valid() && -1 <= it.idx < |chains| && it.rest == WalkFrom(chains, it.idx + 1)
      modifies it
      ensures At(it) && it.np == p && it.order == old(it.order)
      ensures if old(it.rest) == [] then p == NULL && it.rest == []
              else p == old(it.rest)[0] && p != NULL && p in heap && it.rest == old(it.rest)[1..]
    {
      hide Bucket, TableOk, ContentsOf, Hashed, NodeOk, WalkFrom;
      AsManyChains(hashtab[..], heap, index, chains);
      ghost var rest := it.rest;
      var i := it.idx + 1;
      while i < hashSize
        invariant it.rest == rest && it.order == old(it.order) && it.idx == old(it.idx)
        invariant 0 <= i <= hashSize && rest == WalkFrom(chains, i)
      {
        HeadFacts(hashtab[..], heap, index, chains, i);
        NoNull(i);
        WalkSkips(chains, i);
        var np := hashtab[i];
        assert np == hashtab[..][i];
        if np != NULL {
          NodeHere(i, 0);
          it.np := np;
          it.idx := i;
          it.pos := 0;
          it.rest := rest[1..];
          return np;
        }
        i := i + 1;
      }
      WalkEnds();
      it.np := NULL;
      return NULL;
    }

    /** Starts a walk: at the first node of the chains, or at the one with the least key. */
    method ItFirst(it: DictionaryIt, order: Order) returns (p: Ptr)
      requires Valid() && (order.By? ==> TotalOrder(order.cmp, index.Keys))
      modifies it
      ensures it.np == p && it.order == order
      ensures order.Unsorted? ==> At(it) && WalkFrom(chains, 0) == if p == NULL then it.rest else [p] + it.rest
      ensures order.Unsorted? && p == NULL ==> it.rest == []
      ensures order.By? ==>
                if p == NULL then index == map[]
                else p in heap && IsLeast(order.cmp, index.Keys, heap[p].key)
    {
      hide Bucket, TableOk, ContentsOf, Hashed, NodeOk, WalkFrom, TotalOrder, IsLeast, LeastOf;
      ghost var walk := WalkFrom(chains, 0);
      it.idx := -1;
      it.order := order;
      it.np := NULL;
      it.rest := walk;
      p := StepIt(it);
      assert p != NULL ==> walk == [p] + it.rest;
      if order.Unsorted? { return; }
      WalkMeets();
      if p == NULL {
        NothingMet();
        return;
      }
      p := LeastNode(it, p);
    }

    /** Selects the node with the least key from the walk that it has just begun. */
    method LeastNode(it: DictionaryIt, first: Ptr) returns (p: Ptr)
      requires Valid() && it.order.By? && TotalOrder(it.order.cmp, index.Keys) && At(it)
      requires first != NULL && WalkFrom(chains, 0) == [first] + it.rest
      modifies it
      ensures it.np == p && it.order == old(it.order)
      ensures p != NULL && p in heap && IsLeast(it.order.cmp, index.Keys, heap[p].key)
    {
      hide Bucket, TableOk, ContentsOf, Hashed, NodeOk, WalkFrom, TotalOrder, IsLeast, LeastOf, At;
      var cmp := it.order.cmp;
      ghost var walk, n := WalkFrom(chains, 0), 1;
      WalkMeets();
      p := first;
      assert p == walk[0];
      LeastOfOne(cmp, index.Keys, heap, p);
      assert walk[..n] == [p];
      var idx: int := *;
      var np := StepIt(it);
      while np != NULL
        invariant At(it) && it.order == old(it.order)
        invariant n <= |walk|
        invariant if np == NULL then n == |walk| else n < |walk| && np == walk[n] && it.rest == walk[n + 1..]
        invariant p != NULL && p in heap && heap[p].key in index && LeastOf(cmp, heap, walk[..n], p)
        decreases |walk| - n
      {
        LeastNext(cmp, index.Keys, heap, walk[..n], p, np);
        assert walk[..n] + [np] == walk[..n + 1];
        n := n + 1;
        if cmp(heap[p].key, heap[np].key) > 0 {
          p := np;
          idx := it.idx;
        }
        np := StepIt(it);
      }
      assert walk[..n] == walk;
      LeastOfAll(cmp, p);
      it.np := p;
      it.idx := idx;
    }

    /** The next node of a walk: the next one of the chains, or the one with the next key. */
    method ItNext(it: DictionaryIt) returns (p: Ptr)
      requires Valid()
      requires it.order.Unsorted? ==> At(it)
      requires it.order.By? ==> TotalOrder(it.order.cmp, index.Keys) && it.np in heap
      modifies it
      ensures it.np == p && it.order == old(it.order)
      ensures it.order.Unsorted? ==> At(it)
      ensures it.order.Unsorted? ==>
                if old(it.rest) == [] then p == NULL && it.rest == []
                else p == old(it.rest)[0] && p != NULL && p in heap && it.rest == old(it.rest)[1..]
      ensures it.order.By? ==>
                if p == NULL then IsGreatest(it.order.cmp, index.Keys, old(heap[it.np].key))
                else p in heap && IsNext(it.order.cmp, index.Keys, old(heap[it.np].key), heap[p].key)
    {
      hide Bucket, TableOk, ContentsOf, Hashed, NodeOk, WalkFrom, TotalOrder, IsNext, IsGreatest, LeastOf, Above;
      if it.order.Unsorted? {
        p := StepIt(it);
        return;
      }
      p := NextAbove(it.order.cmp, it.np);
      it.np := p;
      var idx: int := *;
      it.idx := idx;
    }

    /** Selects the node with the least key above that of node cur. */
    method NextAbove(cmp: Compare, cur: Ptr) returns (p: Ptr)
      requires Valid() && TotalOrder(cmp, index.Keys) && cur in heap
      ensures if p == NULL then IsGreatest(cmp, index.Keys, heap[cur].key)
              else p in heap && IsNext(cmp, index.Keys, heap[cur].key, heap[p].key)
    {
      hide Bucket, TableOk, ContentsOf, Hashed, NodeOk, WalkFrom, TotalOrder, IsNext, IsGreatest, Best, At;
      var a := heap[cur].key;
      ghost var walk, n := WalkFrom(chains, 0), 0;
      NodeIsIndexed(hashtab[..], heap, index, chains, cur);
      KeyOrder(cmp, index.Keys, a, a);
      WalkMeets();
      var it := new DictionaryIt();
      it.rest := walk;
      BeforeFirst(it);
      p := NULL;
      NothingAbove(cmp, a);
      var np := StepIt(it);
      while np != NULL
        invariant At(it)
        invariant n <= |walk|
        invariant if np == NULL then n == |walk| else n < |walk| && np == walk[n] && it.rest == walk[n + 1..]
        invariant Best(cmp, walk[..n], a, p)
        decreases |walk| - n
      {
        BestNext(cmp, walk[..n], a, p, np, cur);
        assert walk[..n] + [np] == walk[..n + 1];
        n := n + 1;
        if np == cur {
        } else if cmp(a, heap[np].key) >= 0 {
        } else if p == NULL {
          p := np;
        } else if cmp(heap[p].key, heap[np].key) > 0 {
          p := np;
        }
        np := StepIt(it);
      }
      assert walk[..n] == walk;
      LeastAbove(cmp, a, p);
    }

    /** A walk over the chains meets the node of every key. */
    lemma WalkMeets()
      requires Valid()
      ensures var walk := WalkFrom(chains, 0);
              && (forall i :: 0 <= i < |walk| ==> walk[i] in heap && heap[walk[i]].key in index)
              && forall k :: k in index ==> index[k].ptr in walk && index[k].ptr in heap && heap[index[k].ptr].key == k
    {
      hide Bucket, TableOk, Hashed, NodeOk;
      WalkNodes(hashtab[..], heap, index, chains, 0);
      TableOwns(hashtab[..], heap, index, chains);
      forall k | k in index
        ensures index[k].ptr in WalkFrom(chains, 0)
      {
        KeyPlace(hashtab[..], heap, index, chains, k);
        WalkReaches(chains, 0, index[k].bucket, index[k].ptr);
      }
    }

    lemma NothingMet()
      requires Valid() && WalkFrom(chains, 0) == []
      ensures index == map[]
    {
      hide Bucket, TableOk, Hashed, WalkFrom;
      WalkMeets();
    }

    lemma LeastOfAll(cmp: Compare, p: Ptr)
      requires Valid() && p in heap && heap[p].key in index && LeastOf(cmp, heap, WalkFrom(chains, 0), p)
      ensures IsLeast(cmp, index.Keys, heap[p].key)
    {
      hide Bucket, TableOk, Hashed, WalkFrom;
      WalkMeets();
    }

    lemma NothingAbove(cmp: Compare, a: Key)
      ensures Best(cmp, [], a, NULL)
    {
    }

    /** p is the node with the least key above a of the nodes seen, or null if there is none. */
    ghost predicate Best(cmp: Compare, seen: seq<Ptr>, a: Key, p: Ptr)
      reads this
    {
      && (forall i :: 0 <= i < |seen| ==> seen[i] in heap && heap[seen[i]].key in index)
      && var above := Above(cmp, heap, seen, a);
         if p == NULL then above == []
         else p in heap && heap[p].key in index && cmp(a, heap[p].key) < 0 && LeastOf(cmp, heap, above, p)
    }

    lemma BestNext(cmp: Compare, seen: seq<Ptr>, a: Key, p: Ptr, np: Ptr, cur: Ptr)
      requires TotalOrder(cmp, index.Keys) && Best(cmp, seen, a, p)
      requires np != NULL && np in heap && heap[np].key in index && cur in heap && heap[cur].key == a && a in index
      ensures Best(cmp, seen + [np], a,
                   if np == cur || cmp(a, heap[np].key) >= 0 then p
                   else if p == NULL || (p in heap && cmp(heap[p].key, heap[np].key) > 0) then np else p)
      ensures p != NULL ==> p in heap
    {
      hide TotalOrder, LeastOf, Above;
      AboveNext(cmp, heap, seen, a, np);
      AboveMeans(cmp, heap, seen, a);
      KeyOrder(cmp, index.Keys, a, a);
      LeastOfOne(cmp, index.Keys, heap, np);
      var above := Above(cmp, heap, seen, a);
      assert forall i :: 0 <= i < |above| ==> above[i] in seen;
      assert above + [] == above && [] + [np] == [np];
      if p != NULL && cmp(a, heap[np].key) < 0 {
        LeastNext(cmp, index.Keys, heap, above, p, np);
      }
    }

    lemma BeforeFirst(it: DictionaryIt)
      requires Valid() && it.np == NULL && it.idx == -1 && it.rest == WalkFrom(chains, 0)
      ensures At(it)
    {
    }

    lemma LeastAbove(cmp: Compare, a: Key, p: Ptr)
      requires Valid() && TotalOrder(cmp, index.Keys) && a in index
      requires Best(cmp, WalkFrom(chains, 0), a, p)
      ensures if p == NULL then IsGreatest(cmp, index.Keys, a) else p in heap && IsNext(cmp, index.Keys, a, heap[p].key)
    {
      hide Bucket, TableOk, Hashed, WalkFrom, Above;
      WalkMeets();
      AboveMeans(cmp, heap, WalkFrom(chains, 0), a);
      forall k | k in index && cmp(a, k) < 0
        ensures index[k].ptr in Above(cmp, heap, WalkFrom(chains, 0), a) && heap[index[k].ptr].key == k
      {
      }
    }

    /** All keys in the order of a comparison, as the loops over a dictionary's entries meet them. */
    method SortedKeys(cmp: Compare) returns (ks: seq<Key>)
      requires Valid() && TotalOrder(cmp, index.Keys)
      ensures |ks| == count && forall k :: k in index <==> k in ks
      ensures forall i, j :: 0 <= i < j < |ks| ==> cmp(ks[i], ks[j]) < 0
    {
      hide Bucket, TableOk, ContentsOf, Hashed, NodeOk, TotalOrder, IsLeast, IsNext, IsGreatest;
      ks := [];
      var it := new DictionaryIt();
      var p := ItFirst(it, By(cmp));
      while p != NULL
        invariant it.np == p && it.order == By(cmp)
        invariant if p == NULL then SortedWalk(cmp, index.Keys, ks)
                  else p in heap && Ascent(cmp, index.Keys, ks + [heap[p].key])
        decreases p != NULL, count - |ks|
      {
        AscentFits(cmp, index.Keys, ks + [heap[p].key]);
        ks := ks + [heap[p].key];
        p := ItNext(it);
      }
      SortedWalkIsComplete(cmp, index.Keys, ks);
    }

    lemma NextIsNull(b: nat, i: nat)
      requires Valid() && b < |chains| && i < |chains[b]| && Nth(chains[b], i + 1) == NULL
      ensures chains[b][i + 1..] == []
    {
      hide Bucket, TableOk, Hashed;
      NoNull(b);
    }

    lemma WalkEnds()
      ensures WalkFrom(chains, |chains|) == []
    {
    }

    lemma HashedRemove(key: Key)
      requires 0 < hashSize && Hashed(keyWords, hashSize, index)
      ensures Hashed(keyWords, hashSize, index - {key})
    {
      hide Bucket;
    }
  }
}
