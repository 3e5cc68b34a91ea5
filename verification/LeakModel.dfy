/** The index of live blocks of the leak checker (solutions/d1_flashelf/mm/src/mm_leak.c) over
    header addresses: 16 buckets, each listing its headers in the order they came. */
module LeakModel {
  import opened Basics

  type Addr = a: int | 0 <= a < 0x1_0000_0000_0000_0000

  const MAX_HASH: nat := 16

  /** addr2hash */
  function Hash(p: Addr): (h: nat)
    ensures h < MAX_HASH
  {
    var a := (p as bv64) >> 3;
    ((a ^ (a >> 11)) & 15) as nat
  }

  /** Eight bits of an address count: bits 3 to 6, each flipped by the bit eleven places higher. */
  lemma HashBits(p: Addr)
    ensures var b := p as bv64; Hash(p) == (((b >> 3) & 15) ^ ((b >> 14) & 15)) as nat
  {
    var b := p as bv64;
    ShiftTwice(b);
  }

  lemma ShiftTwice(b: bv64)
    ensures ((b >> 3) ^ ((b >> 3) >> 11)) & 15 == ((b >> 3) & 15) ^ ((b >> 14) & 15)
  {
  }

  datatype Op = Add(a: Addr) | Del(a: Addr)

  type Buckets = seq<seq<Addr>>

  function Without(c: seq<Addr>, a: Addr): (r: seq<Addr>) {
    if c == [] then [] else if c[0] == a then c[1..] else [c[0]] + Without(c[1..], a)
  }

  function Step(b: Buckets, op: Op): (r: Buckets)
    requires |b| == MAX_HASH
    ensures |r| == MAX_HASH
  {
    var h := Hash(op.a);
    b[h := match op case Add(a) => b[h] + [a] case Del(a) => Without(b[h], a)]
  }

  function Live(live: set<Addr>, op: Op): set<Addr> {
    match op case Add(a) => live + {a} case Del(a) => live - {a}
  }

  /** Adds are of new blocks, deletes of present ones. */
  predicate Legal(live: set<Addr>, op: Op) {
    op.Add? <==> op.a !in live
  }

  function Run(ops: seq<Op>): (r: Buckets)
    ensures |r| == MAX_HASH
  {
    if ops == [] then seq(MAX_HASH, i => []) else Step(Run(ops[..|ops| - 1]), ops[|ops| - 1])
  }

  function LiveAfter(ops: seq<Op>): set<Addr> {
    if ops == [] then {} else Live(LiveAfter(ops[..|ops| - 1]), ops[|ops| - 1])
  }

  predicate AllLegal(ops: seq<Op>) {
    ops == [] || (AllLegal(ops[..|ops| - 1]) && Legal(LiveAfter(ops[..|ops| - 1]), ops[|ops| - 1]))
  }

  /** Bucket h lists just the live headers that hash to h, each once. */
  ghost predicate BucketOk(c: seq<Addr>, h: nat, live: set<Addr>) {
    Distinct(c) && forall a :: a in c <==> a in live && Hash(a) == h
  }

  ghost predicate IndexOk(b: Buckets, live: set<Addr>) {
    |b| == MAX_HASH && forall h :: 0 <= h < MAX_HASH ==> BucketOk(b[h], h, live)
  }

  lemma {:induction false} WithoutIs(c: seq<Addr>, a: Addr, k: nat)
    requires Distinct(c) && k < |c| && c[k] == a
    ensures Without(c, a) == RemoveAt(c, k)
  {
    hide Without, Distinct, RemoveAt;
    WithoutFront(c, a);
    RemoveFront(c, k);
    if k > 0 {
      WithoutIs(c[1..], a, k - 1);
    }
  }

  lemma WithoutFront(c: seq<Addr>, a: Addr)
    requires c != []
    ensures Without(c, a) == if c[0] == a then c[1..] else [c[0]] + Without(c[1..], a)
  {
  }

  lemma RemoveFront(c: seq<Addr>, k: nat)
    requires k < |c| && Distinct(c)
    ensures RemoveAt(c, k) == if k == 0 then c[1..] else [c[0]] + RemoveAt(c[1..], k - 1)
    ensures Distinct(c[1..]) && (k > 0 ==> c[0] != c[k])
  {
  }

  lemma WithoutDrops(c: seq<Addr>, a: Addr)
    requires Distinct(c) && a in c
    ensures Distinct(Without(c, a)) && forall x :: x in Without(c, a) <==> x in c && x != a
  {
    hide Without, Distinct;
    var k :| 0 <= k < |c| && c[k] == a;
    WithoutIs(c, a, k);
    RemoveAtMembers(c, k);
  }

  lemma StepKeeps(b: Buckets, live: set<Addr>, op: Op)
    requires IndexOk(b, live) && Legal(live, op)
    ensures IndexOk(Step(b, op), Live(live, op))
  {
    hide Hash, Without;
    var h := Hash(op.a);
    assert BucketOk(b[h], h, live);
    if op.Del? { WithoutDrops(b[h], op.a); }
    forall i | 0 <= i < MAX_HASH ensures BucketOk(Step(b, op)[i], i, Live(live, op)) {
      assert BucketOk(b[i], i, live);
    }
  }

  /** Whatever legal adds and deletes came before, every live header is in the bucket its address
      names, and nothing else is in any bucket. */
  lemma {:induction false} RunKeeps(ops: seq<Op>)
    requires AllLegal(ops)
    ensures IndexOk(Run(ops), LiveAfter(ops))
  {
    if ops != [] {
      RunKeeps(ops[..|ops| - 1]);
      StepKeeps(Run(ops[..|ops| - 1]), LiveAfter(ops[..|ops| - 1]), ops[|ops| - 1]);
    }
  }

  function Flat(b: Buckets): seq<Addr> {
    if b == [] then [] else Flat(b[..|b| - 1]) + b[|b| - 1]
  }

  lemma {:induction false} DistinctBag(c: seq<Addr>)
    requires Distinct(c)
    ensures multiset(c) == multiset(set a | a in c)
  {
    if c != [] {
      var rest, a := c[..|c| - 1], c[|c| - 1];
      DistinctBag(rest);
      assert c == rest + [a];
      assert (set x | x in c) == (set x | x in rest) + {a};
    }
  }

  /** The live headers of the first n buckets. */
  ghost function Hashed(live: set<Addr>, n: nat): set<Addr> {
    set a | a in live && Hash(a) < n
  }

  lemma {:induction false} FlatBag(b: Buckets, live: set<Addr>, n: nat)
    requires IndexOk(b, live) && n <= MAX_HASH
    ensures multiset(Flat(b[..n])) == multiset(Hashed(live, n))
  {
    hide Hash;
    if n > 0 {
      FlatBag(b, live, n - 1);
      var c := b[n - 1];
      assert b[..n][..n - 1] == b[..n - 1] && BucketOk(c, n - 1, live);
      DistinctBag(c);
      assert Hashed(live, n) == Hashed(live, n - 1) + (set a | a in c);
    } else {
      assert b[..n] == [];
    }
  }

  /** Over all buckets together each live header appears exactly once. */
  lemma EachOnce(ops: seq<Op>)
    requires AllLegal(ops)
    ensures multiset(Flat(Run(ops))) == multiset(LiveAfter(ops))
  {
    RunKeeps(ops);
    FlatBag(Run(ops), LiveAfter(ops), MAX_HASH);
    assert Run(ops)[..MAX_HASH] == Run(ops);
    assert Hashed(LiveAfter(ops), MAX_HASH) == LiveAfter(ops);
  }

  // ---------------------------------------------------------------------------
  // Nearest headers around an address.

  const NONE_BELOW: Addr := 0
  const NONE_ABOVE: Addr := 0xFFFF_FFFF_FFFF_FFFF

  /** The greatest member of s below p, or NULL. */
  ghost predicate NearestBelow(s: set<Addr>, p: Addr, r: Addr) {
    && (r == NONE_BELOW || (r in s && r < p))
    && forall a :: a in s && a < p ==> a <= r
  }

  /** The least member of s above p, or the all-ones pointer. */
  ghost predicate NearestAbove(s: set<Addr>, p: Addr, r: Addr) {
    && (r == NONE_ABOVE || (r in s && r > p))
    && forall a :: a in s && a > p ==> a >= r
  }

  /** search_nearest: one more header looked at. */
  function Closer(cur: Addr, p: Addr, below: Addr, above: Addr): (Addr, Addr) {
    (if cur < p && cur > below then cur else below, if cur > p && cur < above then cur else above)
  }

  lemma CloserNearest(s: set<Addr>, cur: Addr, p: Addr, below: Addr, above: Addr)
    requires NearestBelow(s, p, below) && NearestAbove(s, p, above)
    ensures var (b, a) := Closer(cur, p, below, above); NearestBelow(s + {cur}, p, b) && NearestAbove(s + {cur}, p, a)
  {
  }

  /** Inside a heap that holds neither the null nor the all-ones address the two answers are
      exact: no answer means no header on that side. */
  lemma NearestMeans(s: set<Addr>, p: Addr, below: Addr, above: Addr)
    requires NearestBelow(s, p, below) && NearestAbove(s, p, above)
    requires NONE_BELOW !in s && NONE_ABOVE !in s
    ensures forall a :: a in s && a < p ==> a <= below && below in s && below < p
    ensures forall a :: a in s && a > p ==> a >= above && above in s && above > p
    ensures below != NONE_BELOW <==> exists a :: a in s && a < p
    ensures above != NONE_ABOVE <==> exists a :: a in s && a > p
    ensures below in s <==> below != NONE_BELOW
    ensures above in s <==> above != NONE_ABOVE
  {
    if a :| a in s && a < p { assert a <= below; }
    if a :| a in s && a > p { assert a >= above; }
  }
}
