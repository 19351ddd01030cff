/**
 * The string hash and the chained hashtable that hold the members of a
 * JSON object, src/json.c: `json_strhash`, and `hashtable_lookup_node`,
 * `hashtable_set`, `hashtable_get`, `hashtable_unset`, `hashtable_size`
 * and `hashtable_resize`.
 *
 * A table is an array of `size` chain heads, allocated on first use; a
 * chain is a list of nodes. Here the chains are sequences of nodes and
 * the array a sequence of chains, empty while the C array is NULL. A
 * value is the handle of a JSON object.
 */
module JsonHash {
  import opened Common

  const WORD: int := 0x1_0000_0000
  const HASHTABLE_MIN_SIZE: int := 7
  const HASHTABLE_MAX_SIZE: int := 13845163

  /** The text of a NUL-terminated C string: bytes 1 to 255. */
  type Key = s: string | forall i | 0 <= i < |s| :: 0 < s[i] as int < 256

  /** The value a `char` promotes to: the target's `char` is signed. */
  function SignedChar(c: char): int {
    var b := c as int % 256;
    if b < 128 then b else b - 256
  }

  /** The characters read as the digits of a number in base 31, most
      significant first. */
  function Poly(s: string): int {
    if |s| == 0 then 0 else Poly(s[..|s| - 1]) * 31 + SignedChar(s[|s| - 1])
  }

  /** What `json_strhash` computes: that number modulo 2^32. */
  function Hash(s: string): nat {
    Poly(s) % WORD
  }

  lemma ModMultiple(x: int, k: int)
    ensures (x + k * 0x1_0000_0000) % 0x1_0000_0000 == x % 0x1_0000_0000
  {
  }

  /** One more character multiplies the hash by 31 and adds the
      character, in 32-bit unsigned arithmetic; `(h << 5) - h + c`
      computes the same value. */
  lemma HashAppend(s: string, c: char)
    ensures Hash(s + [c]) == (Hash(s) * 31 + SignedChar(c)) % WORD
    ensures Hash(s + [c]) == ((Hash(s) * 32) % WORD - Hash(s) + SignedChar(c)) % WORD
  {
    var t := s + [c];
    assert t[..|t| - 1] == s;
    var a := Poly(s);
    var h := a % WORD;
    var q := a / WORD;
    assert a == q * WORD + h;
    assert a * 31 + SignedChar(c) == h * 31 + SignedChar(c) + (31 * q) * WORD;
    ModMultiple(h * 31 + SignedChar(c), 31 * q);
    var q1 := (h * 32) / WORD;
    assert (h * 32) % WORD - h + SignedChar(c) == h * 31 + SignedChar(c) + (-q1) * WORD;
    ModMultiple(h * 31 + SignedChar(c), -q1);
  }

  /** The empty key hashes to 0, a one-character key to its character. */
  lemma HashShort(c: char)
    ensures Hash([]) == 0
    ensures Hash([c]) == SignedChar(c) % WORD
  {
    assert [c][..0] == [];
  }

  /** `json_strhash`: the first character, then h = (h << 5) - h + c for
      each further one until the terminator. */
  method StrHash(key: Key) returns (h: nat)
    ensures h == Hash(key) && h < WORD
  {
    h := if |key| == 0 then 0 else SignedChar(key[0]) % WORD;
    assert |key| > 0 ==> 0 < key[0] as int < 256;
    if h != 0 {
      HashShort(key[0]);
      assert key[..1] == [key[0]];
      var i := 1;
      while i < |key|
        invariant 1 <= i <= |key|
        invariant h == Hash(key[..i])
      {
        HashAppend(key[..i], key[i]);
        assert key[..i + 1] == key[..i] + [key[i]];
        h := ((h * 32) % WORD - h + SignedChar(key[i])) % WORD;
        i := i + 1;
      }
      assert key[..i] == key;
    }
  }

  /** A `hashnode_t`: a key and the handle of its value. */
  datatype Node = Node(key: Key, value: nat)

  /** The chain a key belongs to: `json_strhash(key) % size`. */
  function Bucket(key: string, size: nat): nat
    requires size > 0
  {
    Hash(key) % size
  }

  /** Where the walk of `hashtable_lookup_node` along a chain stops: at
      the first node holding `key`, or past the end. */
  function ChainPos(chain: seq<Node>, key: string): (p: nat)
    ensures p <= |chain|
    ensures p < |chain| ==> chain[p].key == key
    ensures forall j :: 0 <= j < p ==> chain[j].key != key
  {
    if |chain| == 0 then 0
    else if chain[0].key == key then 0
    else ChainPos(chain[1..], key) + 1
  }

  /** The value a chain holds for `key`. */
  function ChainFind(chain: seq<Node>, key: string): Option<nat> {
    var p := ChainPos(chain, key);
    if p < |chain| then Some(chain[p].value) else None
  }

  /** The value a table of chains holds for `key`: none while the table
      has no chains. */
  function Find(buckets: seq<seq<Node>>, key: string): Option<nat> {
    if |buckets| == 0 then None else ChainFind(buckets[Bucket(key, |buckets|)], key)
  }

  /** The number of nodes in the table. */
  function Total(buckets: seq<seq<Node>>): nat {
    if |buckets| == 0 then 0 else Total(buckets[..|buckets| - 1]) + |buckets[|buckets| - 1]|
  }

  /** Every node sits in the chain of its key, and its key is not empty. */
  predicate Placed(buckets: seq<seq<Node>>) {
    forall b, j :: 0 <= b < |buckets| && 0 <= j < |buckets[b]| ==>
      Bucket(buckets[b][j].key, |buckets|) == b && |buckets[b][j].key| > 0
  }

  /** A chain holds each key at most once. */
  predicate Distinct(chain: seq<Node>) {
    forall i, j :: 0 <= i < j < |chain| ==> chain[i].key != chain[j].key
  }

  predicate WellFormed(buckets: seq<seq<Node>>) {
    Placed(buckets) && forall b :: 0 <= b < |buckets| ==> Distinct(buckets[b])
  }

  /** A stop of the walk is the first node holding the key. */
  lemma {:induction false} ChainPosUnique(chain: seq<Node>, key: string, p: nat)
    requires p <= |chain|
    requires p < |chain| ==> chain[p].key == key
    requires forall j :: 0 <= j < p ==> chain[j].key != key
    ensures ChainPos(chain, key) == p
  {
  }

  /** A chain with no node holding `key` has no value for it. */
  lemma ChainFindNone(chain: seq<Node>, key: string)
    requires forall j :: 0 <= j < |chain| ==> chain[j].key != key
    ensures ChainFind(chain, key) == None
  {
    ChainPosUnique(chain, key, |chain|);
  }

  /** In a chain without duplicates the node at position `p` is found by
      its key. */
  lemma ChainFindAt(chain: seq<Node>, p: nat)
    requires p < |chain| && Distinct(chain)
    ensures ChainPos(chain, chain[p].key) == p
    ensures ChainFind(chain, chain[p].key) == Some(chain[p].value)
  {
    ChainPosUnique(chain, chain[p].key, p);
  }

  /** A node pushed in front of a chain hides nothing but its own key. */
  lemma ChainFindPush(n: Node, chain: seq<Node>, key: string)
    ensures ChainFind([n] + chain, key) == if n.key == key then Some(n.value) else ChainFind(chain, key)
  {
    var c := [n] + chain;
    assert c[1..] == chain;
  }

  /** A node added at the end of a chain that lacks its key adds exactly
      that key. */
  lemma ChainFindAppend(chain: seq<Node>, n: Node, key: string)
    requires ChainFind(chain, n.key) == None
    ensures ChainFind(chain + [n], key) == if n.key == key then Some(n.value) else ChainFind(chain, key)
  {
    var c := chain + [n];
    var p := ChainPos(chain, key);
    if p < |chain| {
      ChainPosUnique(c, key, p);
    } else if n.key == key {
      ChainPosUnique(c, key, |chain|);
    } else {
      ChainPosUnique(c, key, |c|);
    }
  }

  /** Two chains with the same keys at the same positions stop the walk
      at the same place. */
  lemma SameKeysSamePos(c: seq<Node>, d: seq<Node>, key: string)
    requires |c| == |d| && forall j :: 0 <= j < |c| ==> c[j].key == d[j].key
    ensures ChainPos(c, key) == ChainPos(d, key)
  {
    ChainPosUnique(d, key, ChainPos(c, key));
  }

  /** Replacing the value of the node the walk stops at changes the value
      of that key only. */
  lemma ChainFindReplace(chain: seq<Node>, p: nat, key: Key, v: nat, k: string)
    requires p < |chain| && chain[p].key == key
    ensures ChainFind(chain[p := Node(key, v)], k)
         == if k == key && ChainPos(chain, k) == p then Some(v) else ChainFind(chain, k)
  {
    SameKeysSamePos(chain, chain[p := Node(key, v)], k);
  }

  /** Unlinking the node holding `key` from a chain without duplicates
      removes that key and only it. */
  lemma ChainFindRemove(chain: seq<Node>, p: nat, k: string)
    requires p < |chain| && Distinct(chain)
    ensures ChainFind(chain[..p] + chain[p + 1..], k)
         == if k == chain[p].key then None else ChainFind(chain, k)
  {
    var c := chain[..p] + chain[p + 1..];
    assert forall j :: 0 <= j < p ==> c[j] == chain[j];
    assert forall j :: p <= j < |c| ==> c[j] == chain[j + 1];
    var q := ChainPos(chain, k);
    if k == chain[p].key {
      ChainFindNone(c, k);
    } else if q < p {
      ChainPosUnique(c, k, q);
    } else if q == |chain| {
      ChainPosUnique(c, k, |c|);
    } else {
      ChainPosUnique(c, k, q - 1);
    }
  }

  /** The count after one chain is replaced. */
  lemma {:induction false} TotalUpdate(buckets: seq<seq<Node>>, b: nat, c: seq<Node>)
    requires b < |buckets|
    ensures Total(buckets[b := c]) == Total(buckets) - |buckets[b]| + |c|
    decreases |buckets|
  {
    var t := buckets[b := c];
    var n := |buckets| - 1;
    assert t[..n] == if b == n then buckets[..n] else buckets[..n][b := c];
    if b < n {
      TotalUpdate(buckets[..n], b, c);
    }
  }

  /** A table whose chains are all empty. */
  predicate AllEmpty(buckets: seq<seq<Node>>) {
    forall b :: 0 <= b < |buckets| ==> buckets[b] == []
  }

  lemma {:induction false} EmptyTable(buckets: seq<seq<Node>>, key: string)
    requires AllEmpty(buckets)
    ensures Find(buckets, key) == None && WellFormed(buckets) && Total(buckets) == 0
    decreases |buckets|
  {
    if |buckets| > 0 {
      assert AllEmpty(buckets[..|buckets| - 1]);
      EmptyTable(buckets[..|buckets| - 1], key);
    }
  }

  /** The count of a prefix of the chains grows by the next chain. */
  lemma TotalPrefix(buckets: seq<seq<Node>>, i: nat)
    requires i < |buckets|
    ensures Total(buckets[..i + 1]) == Total(buckets[..i]) + |buckets[i]|
  {
    assert buckets[..i + 1][..i] == buckets[..i];
  }

  /** `next` with node `n` pushed in front of the chain of its key, as
      `hashtable_resize` links it. */
  function Pushed(buckets: seq<seq<Node>>, n: Node): seq<seq<Node>>
    requires |buckets| > 0
  {
    var h := Bucket(n.key, |buckets|);
    buckets[h := [n] + buckets[h]]
  }

  /** The node at chain `i`, position `j` of the old table has been moved
      when its chain comes before `i`, or it is chain `i` and the walk to
      its key stops before `j`. */
  predicate Moved(prev: seq<seq<Node>>, i: nat, j: nat, k: string)
    requires |prev| > 0
  {
    var b := Bucket(k, |prev|);
    b < i || (b == i && b < |prev| && ChainPos(prev[b], k) < j)
  }

  /** The state of `hashtable_resize` after chain `i` of the old table has
      been moved up to position `j`: the new table is well formed, counts
      the moved nodes and holds exactly the keys moved so far. */
  ghost predicate Rehashing(prev: seq<seq<Node>>, next: seq<seq<Node>>, i: nat, j: nat) {
    |prev| > 0 && |next| > 0 && i <= |prev| && (i < |prev| ==> j <= |prev[i]|) &&
    WellFormed(next) && Total(next) == Total(prev[..i]) + j &&
    forall k :: Find(next, k) == if Moved(prev, i, j, k) then Find(prev, k) else None
  }

  lemma RehashStart(prev: seq<seq<Node>>, next: seq<seq<Node>>)
    requires |prev| > 0 && |next| > 0 && AllEmpty(next)
    ensures Rehashing(prev, next, 0, 0)
  {
    forall k ensures Find(next, k) == None {
      EmptyTable(next, k);
    }
    EmptyTable(next, []);
  }

  /** A chain replaced by one whose nodes belong there, without
      duplicates, keeps the table well formed. */
  lemma UpdateWellFormed(buckets: seq<seq<Node>>, b: nat, c: seq<Node>)
    requires WellFormed(buckets) && b < |buckets| && Distinct(c)
    requires forall j :: 0 <= j < |c| ==> Bucket(c[j].key, |buckets|) == b && |c[j].key| > 0
    ensures WellFormed(buckets[b := c])
  {
    var t: seq<seq<Node>> := buckets[b := c];
    forall x: nat, j: nat | 0 <= x < |t| && 0 <= j < |t[x]|
      ensures Bucket(t[x][j].key, |t|) == x && |t[x][j].key| > 0
    {
      if x != b {
        assert t[x][j] == buckets[x][j];
      }
    }
    forall x | 0 <= x < |t| ensures Distinct(t[x]) {
    }
  }

  /** A node whose key the table lacks can be pushed in front of its
      chain: the table stays well formed and counts one node more. */
  lemma PushedWellFormed(next: seq<seq<Node>>, n: Node)
    requires |next| > 0 && WellFormed(next) && |n.key| > 0
    requires Find(next, n.key) == None
    ensures WellFormed(Pushed(next, n)) && Total(Pushed(next, n)) == Total(next) + 1
  {
    var h := Bucket(n.key, |next|);
    var c := next[h];
    assert ChainPos(c, n.key) == |c|;
    assert forall m :: 0 <= m < |c| ==> c[m].key != n.key;
    var d := [n] + c;
    assert forall m :: 1 <= m < |d| ==> d[m] == c[m - 1];
    assert Distinct(d);
    UpdateWellFormed(next, h, d);
    TotalUpdate(next, h, d);
  }

  /** The moved node `prev[i][j]` is not yet in the new table. */
  lemma NotYetMoved(prev: seq<seq<Node>>, next: seq<seq<Node>>, i: nat, j: nat)
    requires WellFormed(prev) && Rehashing(prev, next, i, j)
    requires i < |prev| && j < |prev[i]|
    ensures Find(next, prev[i][j].key) == None
    ensures Find(prev, prev[i][j].key) == Some(prev[i][j].value)
  {
    var n := prev[i][j];
    assert Bucket(n.key, |prev|) == i;
    ChainFindAt(prev[i], j);
    assert !Moved(prev, i, j, n.key);
  }

  /** After the push, one key more has been moved. */
  lemma RehashFind(prev: seq<seq<Node>>, next: seq<seq<Node>>, i: nat, j: nat, k: string)
    requires WellFormed(prev) && Rehashing(prev, next, i, j)
    requires i < |prev| && j < |prev[i]|
    requires Find(prev, prev[i][j].key) == Some(prev[i][j].value)
    ensures Find(Pushed(next, prev[i][j]), k) == if Moved(prev, i, j + 1, k) then Find(prev, k) else None
  {
    var n := prev[i][j];
    var h := Bucket(n.key, |next|);
    assert Bucket(n.key, |prev|) == i;
    assert Find(next, k) == if Moved(prev, i, j, k) then Find(prev, k) else None;
    if Bucket(k, |next|) == h {
      ChainFindPush(n, next[h], k);
    }
    if k != n.key && Bucket(k, |prev|) == i {
      assert ChainPos(prev[i], k) != j;
    }
  }

  /** Moving one more node keeps the state of the resize. */
  lemma RehashStep(prev: seq<seq<Node>>, next: seq<seq<Node>>, i: nat, j: nat)
    requires WellFormed(prev) && Rehashing(prev, next, i, j)
    requires i < |prev| && j < |prev[i]|
    ensures Rehashing(prev, Pushed(next, prev[i][j]), i, j + 1)
  {
    NotYetMoved(prev, next, i, j);
    PushedWellFormed(next, prev[i][j]);
    forall k ensures Find(Pushed(next, prev[i][j]), k) == if Moved(prev, i, j + 1, k) then Find(prev, k) else None {
      RehashFind(prev, next, i, j, k);
    }
  }

  /** A finished chain: moved up to its end is the same as the next chain
      not yet started. */
  lemma RehashNextChain(prev: seq<seq<Node>>, next: seq<seq<Node>>, i: nat)
    requires i < |prev| && Rehashing(prev, next, i, |prev[i]|)
    ensures Rehashing(prev, next, i + 1, 0)
  {
    TotalPrefix(prev, i);
    forall k ensures Find(next, k) == if Moved(prev, i + 1, 0, k) then Find(prev, k) else None {
    }
  }

  /** All chains moved: the new table holds what the old one held. */
  lemma RehashDone(prev: seq<seq<Node>>, next: seq<seq<Node>>)
    requires Rehashing(prev, next, |prev|, 0)
    ensures WellFormed(next) && Total(next) == Total(prev)
    ensures forall k :: Find(next, k) == Find(prev, k)
  {
    assert prev[..|prev|] == prev;
    forall k ensures Find(next, k) == Find(prev, k) {
      assert Moved(prev, |prev|, 0, k);
    }
  }

  /** A `hashtable_t`: the chain heads and the node count. */
  class HashTable {
    var size: int
    var numNodes: int
    var nodes: seq<seq<Node>>

    ghost predicate Valid()
      reads this
    {
      |nodes| == size && WellFormed(nodes) && numNodes == Total(nodes) &&
      (size == 0 || HASHTABLE_MIN_SIZE <= size <= HASHTABLE_MAX_SIZE)
    }

    /** `new_hashtable`: no chains and no nodes. */
    constructor ()
      ensures Valid() && size == 0 && numNodes == 0
      ensures forall k :: Find(nodes, k) == None
    {
      size := 0;
      numNodes := 0;
      nodes := [];
    }

    /** `hashtable_size`: the number of nodes in the chains. */
    function Size(): (n: nat)
      requires Valid()
      reads this
      ensures n == Total(nodes)
    {
      numNodes
    }

    /** `hashtable_lookup_node`: allocates `HASHTABLE_MIN_SIZE` empty
        chains on first use, then walks the chain of the key to the node
        that holds it or to the end. */
    method LookupNode(key: Key) returns (b: nat, pos: nat)
      requires Valid()
      modifies this
      ensures Valid() && size > 0 && numNodes == old(numNodes)
      ensures old(size) > 0 ==> size == old(size) && nodes == old(nodes)
      ensures old(size) == 0 ==> size == HASHTABLE_MIN_SIZE && AllEmpty(nodes)
      ensures b < size && b == Bucket(key, size) && pos == ChainPos(nodes[b], key)
      ensures forall k :: Find(nodes, k) == Find(old(nodes), k)
    {
      if size == 0 {
        size := HASHTABLE_MIN_SIZE;
        nodes := seq(HASHTABLE_MIN_SIZE, _ => []);
        assert AllEmpty(nodes);
        forall k ensures Find(nodes, k) == None {
          EmptyTable(nodes, k);
        }
        EmptyTable(nodes, key);
      }
      var h := StrHash(key);
      b := h % size;
      var chain := nodes[b];
      pos := 0;
      while pos < |chain| && chain[pos].key != key
        invariant pos <= |chain|
        invariant forall j :: 0 <= j < pos ==> chain[j].key != key
      {
        pos := pos + 1;
      }
      ChainPosUnique(chain, key, pos);
    }

    /** The value of the node at `pos` of chain `b` is replaced. */
    method ReplaceValue(b: nat, pos: nat, key: Key, value: nat)
      requires Valid() && b < size && pos < |nodes[b]| && nodes[b][pos].key == key
      requires b == Bucket(key, size) && pos == ChainPos(nodes[b], key)
      modifies this
      ensures Valid() && size == old(size) && numNodes == old(numNodes)
      ensures forall k :: Find(nodes, k) == if k == key then Some(value) else Find(old(nodes), k)
    {
      var chain := nodes[b][pos := Node(key, value)];
      forall k ensures Find(nodes[b := chain], k) == if k == key then Some(value) else Find(nodes, k) {
        if Bucket(k, size) == b {
          ChainFindReplace(nodes[b], pos, key, value, k);
        }
      }
      assert forall j :: 0 <= j < |chain| ==> chain[j].key == nodes[b][j].key;
      UpdateWellFormed(nodes, b, chain);
      TotalUpdate(nodes, b, chain);
      nodes := nodes[b := chain];
    }

    /** A new node for a key its chain does not hold is linked at the end
        of the chain, and counted. */
    method AddNode(b: nat, key: Key, value: nat)
      requires Valid() && b < size && |key| > 0
      requires b == Bucket(key, size) && ChainPos(nodes[b], key) == |nodes[b]|
      modifies this
      ensures Valid() && size == old(size) && numNodes == old(numNodes) + 1
      ensures forall k :: Find(nodes, k) == if k == key then Some(value) else Find(old(nodes), k)
    {
      var n := Node(key, value);
      var chain := nodes[b] + [n];
      forall k ensures Find(nodes[b := chain], k) == if k == key then Some(value) else Find(nodes, k) {
        if Bucket(k, size) == b {
          ChainFindAppend(nodes[b], n, k);
        }
      }
      assert Distinct(chain) by {
        assert forall j :: 0 <= j < |nodes[b]| ==> nodes[b][j].key != key;
      }
      assert forall j :: 0 <= j < |nodes[b]| ==> chain[j] == nodes[b][j];
      UpdateWellFormed(nodes, b, chain);
      TotalUpdate(nodes, b, chain);
      nodes := nodes[b := chain];
      numNodes := numNodes + 1;
    }

    /** `hashtable_set`: a NULL or empty key is refused with -1; the value
        of a key the table holds is replaced; a new key is added, and the
        table grows once it holds three nodes per chain. */
    method Set(key: Option<Key>, value: nat) returns (err: int)
      requires Valid()
      modifies this
      ensures Valid()
      ensures err == (if key.None? || |key.value| == 0 then -1 else 0)
      ensures err != 0 ==> size == old(size) && nodes == old(nodes) && numNodes == old(numNodes)
      ensures err == 0 ==> forall k :: Find(nodes, k) == if k == key.value then Some(value) else Find(old(nodes), k)
      ensures err == 0 ==> numNodes == old(numNodes) + (if Find(old(nodes), key.value).None? then 1 else 0)
    {
      if key.None? || |key.value| == 0 {
        return -1;
      }
      var b, pos := LookupNode(key.value);
      if pos < |nodes[b]| {
        ReplaceValue(b, pos, key.value, value);
      } else {
        AddNode(b, key.value, value);
        if 3 * size <= numNodes && size < HASHTABLE_MAX_SIZE {
          Resize();
        }
      }
      return 0;
    }

    /** `hashtable_get`: the value held for the key; `None` stands for
        `json_undefined()`. */
    method Get(key: Key) returns (r: Option<nat>)
      requires Valid()
      modifies this
      ensures Valid() && numNodes == old(numNodes)
      ensures r == Find(old(nodes), key)
      ensures forall k :: Find(nodes, k) == Find(old(nodes), k)
    {
      var b, pos := LookupNode(key);
      r := if pos < |nodes[b]| then Some(nodes[b][pos].value) else None;
    }

    /** The node at `pos` of chain `b` is unlinked and uncounted. */
    method RemoveNode(b: nat, pos: nat, key: Key)
      requires Valid() && b < size && pos < |nodes[b]| && nodes[b][pos].key == key
      requires b == Bucket(key, size)
      modifies this
      ensures Valid() && size == old(size) && numNodes == old(numNodes) - 1
      ensures forall k :: Find(nodes, k) == if k == key then None else Find(old(nodes), k)
    {
      var chain := nodes[b][..pos] + nodes[b][pos + 1..];
      forall k ensures Find(nodes[b := chain], k) == if k == key then None else Find(nodes, k) {
        if Bucket(k, size) == b {
          ChainFindRemove(nodes[b], pos, k);
        }
      }
      assert Distinct(chain) by {
        assert forall j :: 0 <= j < pos ==> chain[j] == nodes[b][j];
        assert forall j :: pos <= j < |chain| ==> chain[j] == nodes[b][j + 1];
      }
      UpdateWellFormed(nodes, b, chain);
      TotalUpdate(nodes, b, chain);
      nodes := nodes[b := chain];
      numNodes := numNodes - 1;
    }

    /** `hashtable_unset`: unlinks the node holding the key and uncounts
        it, or returns -1 when there is none. */
    method Unset(key: Key) returns (err: int)
      requires Valid()
      modifies this
      ensures Valid()
      ensures err == (if Find(old(nodes), key).Some? then 0 else -1)
      ensures numNodes == old(numNodes) - (if Find(old(nodes), key).Some? then 1 else 0)
      ensures forall k :: Find(nodes, k) == if k == key then None else Find(old(nodes), k)
    {
      var b, pos := LookupNode(key);
      if pos < |nodes[b]| {
        RemoveNode(b, pos, key);
        return 0;
      }
      return -1;
    }

    /** `hashtable_resize`: each node is pushed in front of its chain in a
        table of `3 * size + 1` chains, at most `HASHTABLE_MAX_SIZE`. */
    method Resize()
      requires Valid() && 0 < size < HASHTABLE_MAX_SIZE
      modifies this
      ensures Valid() && numNodes == old(numNodes)
      ensures size == if 3 * old(size) + 1 > HASHTABLE_MAX_SIZE then HASHTABLE_MAX_SIZE else 3 * old(size) + 1
      ensures forall k :: Find(nodes, k) == Find(old(nodes), k)
    {
      var newSize := 3 * size + 1;
      newSize := if newSize > HASHTABLE_MAX_SIZE then HASHTABLE_MAX_SIZE else newSize;
      var newNodes: seq<seq<Node>> := seq(newSize, _ => []);
      assert AllEmpty(newNodes);
      RehashStart(nodes, newNodes);
      var i := 0;
      while i < size
        invariant 0 <= i <= size
        invariant unchanged(this)
        invariant |newNodes| == newSize
        invariant Rehashing(nodes, newNodes, i, 0)
      {
        var chain := nodes[i];
        var j := 0;
        while j < |chain|
          invariant j <= |chain|
          invariant unchanged(this)
          invariant |newNodes| == newSize
          invariant Rehashing(nodes, newNodes, i, j)
        {
          RehashStep(nodes, newNodes, i, j);
          var h := StrHash(chain[j].key);
          newNodes := newNodes[h % newSize := [chain[j]] + newNodes[h % newSize]];
          j := j + 1;
        }
        RehashNextChain(nodes, newNodes, i);
        i := i + 1;
      }
      RehashDone(nodes, newNodes);
      nodes := newNodes;
      size := newSize;
    }
  }
}
