/**
 Hash tables (src/lib/kernel/hash.c).  A bucket is the sequence of its elements
 from the front; elements are told apart by `less` alone.
 */
module HashTable {
  import opened Bitmaps
  import opened ListOrder
  import opened Arithmetic

  // ----- bit tricks -----

  /** Bitwise and. */
  function And(x: nat, y: nat): (r: nat)
    ensures r <= x && r <= y
  {
    if x == 0 || y == 0 then 0
    else 2 * And(x / 2, y / 2) + if x % 2 == 1 && y % 2 == 1 then 1 else 0
  }

  ghost predicate PowerOf2(x: nat)
  {
    x == 1 || (x > 1 && x % 2 == 0 && PowerOf2(x / 2))
  }

  /** The largest power of two that is no larger than `x`. */
  ghost function TopBit(x: nat): (r: nat)
    requires x > 0
    ensures r <= x < 2 * r && PowerOf2(r)
  {
    if x == 1 then 1 else 2 * TopBit(x / 2)
  }

  lemma {:induction false} AndSelf(x: nat)
    ensures And(x, x) == x
  {
    if x > 0 {
      AndSelf(x / 2);
    }
  }

  /** Masking with one less than a power of two is the remainder. */
  lemma {:induction false} AndMask(x: nat, n: nat)
    requires PowerOf2(n)
    ensures And(x, n - 1) == x % n
  {
    if n > 1 {
      var m := n / 2;
      assert n == 2 * m;
      AndMask(x / 2, m);
      assert x == 2 * (x / 2) + x % 2;
      MaskStep(x, m);
      if x > 0 {
        assert (n - 1) / 2 == m - 1 && (n - 1) % 2 == 1;
      }
    }
  }

  lemma MaskStep(x: nat, m: nat)
    requires m > 0
    ensures x % (2 * m) == 2 * (x / 2 % m) + x % 2
  {
    var q, r := x / 2 / m, x / 2 % m;
    assert x / 2 == m * q + r;
    assert x == 2 * m * q + (2 * r + x % 2);
    assert 0 <= 2 * r + x % 2 < 2 * m;
    QuotientUnique(x, 2 * m, q, 2 * r + x % 2);
  }

  /** Clearing the lowest bit that is set keeps the highest one, unless it is
      the only one. */
  lemma {:induction false} TurnOffLeast(x: nat)
    requires x > 0
    ensures And(x, x - 1) < x
    ensures And(x, x - 1) == 0 <==> PowerOf2(x)
    ensures And(x, x - 1) > 0 ==> TopBit(And(x, x - 1)) == TopBit(x)
  {
    if x > 1 {
      var y := x / 2;
      TurnOffLeast(y);
      if x % 2 == 0 {
        assert (x - 1) / 2 == y - 1;
        assert And(x, x - 1) == 2 * And(y, y - 1);
        if And(y, y - 1) > 0 {
          TopBitDouble(And(y, y - 1));
        }
      } else {
        AndSelf(y);
        assert And(x, x - 1) == 2 * y;
        TopBitDouble(y);
      }
    }
  }

  lemma TopBitDouble(y: nat)
    requires y > 0
    ensures TopBit(2 * y) == 2 * TopBit(y) == TopBit(2 * y + 1)
  {
  }

  // ----- what the table stands for -----

  /** Equality of keys is an equivalence, and equal elements hash alike. */
  ghost predicate Laws<E(!new)>(less: Less<E>, hash: E -> nat)
  {
    && (forall x :: !less(x, x))
    && (forall x, y, z :: Equivalent(less, x, y) && Equivalent(less, y, z) ==> Equivalent(less, x, z))
    && (forall x, y :: Equivalent(less, x, y) ==> hash(x) == hash(y))
  }

  /** A finite map keyed by equality: no two elements are equal. */
  ghost predicate Apart<E>(less: Less<E>, m: multiset<E>)
  {
    && (forall x :: x in m ==> m[x] == 1)
    && (forall x, y :: x in m && y in m && x != y ==> !Equivalent(less, x, y))
  }

  /** What looking up `e` must give: the element equal to it, if there is one. */
  ghost predicate Answer<E(!new)>(less: Less<E>, m: multiset<E>, e: E, r: Option<E>)
  {
    match r
    case None => forall x :: x in m ==> !Equivalent(less, x, e)
    case Some(x) => x in m && Equivalent(less, x, e)
  }

  lemma AnswerUnique<E(!new)>(less: Less<E>, hash: E -> nat, m: multiset<E>, e: E, r: Option<E>, r': Option<E>)
    requires Laws(less, hash) && Apart(less, m) && Answer(less, m, e, r) && Answer(less, m, e, r')
    ensures r == r'
  {
    if r.Some? && r'.Some? {
      assert Equivalent(less, r.value, e) && Equivalent(less, e, r'.value);
    }
  }

  // ----- buckets -----

  /** All elements of all buckets. */
  ghost function Flat<E>(buckets: seq<seq<E>>): multiset<E>
  {
    if buckets == [] then multiset{} else Flat(buckets[..|buckets| - 1]) + multiset(buckets[|buckets| - 1])
  }

  lemma {:induction false} FlatUpdate<E>(buckets: seq<seq<E>>, b: nat, s: seq<E>)
    requires b < |buckets|
    ensures Flat(buckets[b := s]) + multiset(buckets[b]) == Flat(buckets) + multiset(s)
  {
    var n, u := |buckets| - 1, buckets[b := s];
    assert Flat(u) == Flat(u[..n]) + multiset(u[n]);
    if b < n {
      var p := buckets[..n];
      FlatUpdate(p, b, s);
      assert u[..n] == p[b := s] && p[b] == buckets[b] && u[n] == buckets[n];
      assert Flat(u) + multiset(buckets[b]) == (Flat(p[b := s]) + multiset(p[b])) + multiset(buckets[n]);
    } else {
      assert u[..n] == buckets[..n];
    }
  }

  lemma {:induction false} FlatMember<E>(buckets: seq<seq<E>>, x: E)
    ensures x in Flat(buckets) <==> exists b :: 0 <= b < |buckets| && x in buckets[b]
  {
    if buckets != [] {
      var n := |buckets| - 1;
      FlatMember(buckets[..n], x);
      assert forall b :: 0 <= b < n ==> buckets[..n][b] == buckets[b];
    }
  }

  lemma {:induction false} FlatEmpty<E>(buckets: seq<seq<E>>)
    requires forall b :: 0 <= b < |buckets| ==> buckets[b] == []
    ensures Flat(buckets) == multiset{}
  {
    if buckets != [] {
      FlatEmpty(buckets[..|buckets| - 1]);
    }
  }

  /** Where an element belongs. */
  function BucketOf<E>(hash: E -> nat, cnt: nat, e: E): (b: nat)
    requires cnt > 0
    ensures b < cnt
  {
    And(hash(e), cnt - 1)
  }

  /** Every element is in the bucket its hash selects. */
  ghost predicate Placed<E>(hash: E -> nat, buckets: seq<seq<E>>)
  {
    forall b, x :: 0 <= b < |buckets| && x in buckets[b] ==> BucketOf(hash, |buckets|, x) == b
  }

  /** An equal element can only be in the bucket that is searched. */
  lemma LookHere<E(!new)>(less: Less<E>, hash: E -> nat, buckets: seq<seq<E>>, e: E, x: E)
    requires Laws(less, hash) && Placed(hash, buckets) && buckets != [] && Equivalent(less, x, e)
    ensures x in Flat(buckets) <==> x in buckets[BucketOf(hash, |buckets|, e)]
  {
    FlatMember(buckets, x);
    var home := BucketOf(hash, |buckets|, e);
    assert BucketOf(hash, |buckets|, x) == home;
    if x in Flat(buckets) {
      var b :| 0 <= b < |buckets| && x in buckets[b];
      assert b == home;
    }
  }

  lemma Cancel<E>(a: multiset<E>, b: multiset<E>, m: multiset<E>)
    requires a + m == b + m
    ensures a == b
  {
    forall x ensures a[x] == b[x] {
      assert (a + m)[x] == (b + m)[x];
    }
  }

  lemma PushFront<E>(buckets: seq<seq<E>>, b: nat, e: E)
    requires b < |buckets|
    ensures Flat(buckets[b := [e] + buckets[b]]) == Flat(buckets) + multiset{e}
  {
    FlatUpdate(buckets, b, [e] + buckets[b]);
    Cancel(Flat(buckets[b := [e] + buckets[b]]), Flat(buckets) + multiset{e}, multiset(buckets[b]));
  }

  lemma RemoveAt<E>(buckets: seq<seq<E>>, b: nat, i: nat)
    requires b < |buckets| && i < |buckets[b]|
    ensures Flat(buckets[b := buckets[b][..i] + buckets[b][i + 1..]]) == Flat(buckets) - multiset{buckets[b][i]}
    ensures buckets[b][i] in Flat(buckets)
  {
    var s := buckets[b];
    var r := s[..i] + s[i + 1..];
    assert s == s[..i] + [s[i]] + s[i + 1..];
    assert multiset(s) == multiset(r) + multiset{s[i]};
    FlatUpdate(buckets, b, r);
    FlatMember(buckets, s[i]);
    hide Flat;
    Cancel(Flat(buckets[b := r]) + multiset{s[i]}, Flat(buckets), multiset(r));
  }

  lemma PlacedPush<E>(hash: E -> nat, buckets: seq<seq<E>>, e: E)
    requires Placed(hash, buckets) && buckets != []
    ensures var b := BucketOf(hash, |buckets|, e); Placed(hash, buckets[b := [e] + buckets[b]])
  {
  }

  lemma PlacedRemove<E>(hash: E -> nat, buckets: seq<seq<E>>, b: nat, i: nat)
    requires Placed(hash, buckets) && b < |buckets| && i < |buckets[b]|
    ensures Placed(hash, buckets[b := buckets[b][..i] + buckets[b][i + 1..]])
  {
  }

  lemma ApartMore<E(!new)>(less: Less<E>, hash: E -> nat, m: multiset<E>, e: E)
    requires Laws(less, hash) && Apart(less, m) && Answer(less, m, e, None)
    ensures Apart(less, m + multiset{e})
  {
    assert e in m ==> !Equivalent(less, e, e);
    assert Equivalent(less, e, e);
  }

  lemma ApartLess<E(!new)>(less: Less<E>, hash: E -> nat, m: multiset<E>, x: E, e: E)
    requires Laws(less, hash) && Apart(less, m) && Answer(less, m, e, Some(x))
    ensures Apart(less, m - multiset{x}) && Answer(less, m - multiset{x}, e, None)
  {
    forall y | y in m - multiset{x} ensures y != x && !Equivalent(less, y, e) {
      assert m[x] == 1 && Equivalent(less, e, x);
      assert Equivalent(less, y, e) ==> Equivalent(less, y, x);
    }
  }

  lemma FlatNext<E>(buckets: seq<seq<E>>, i: nat)
    requires i < |buckets|
    ensures Flat(buckets[..i + 1]) == Flat(buckets[..i]) + multiset(buckets[i])
  {
    assert buckets[..i + 1][..i] == buckets[..i];
  }

  lemma NoElements<E>(hash: E -> nat, buckets: seq<seq<E>>)
    requires forall b :: 0 <= b < |buckets| ==> buckets[b] == []
    ensures Flat(buckets) == multiset{} == Flat<E>([]) && Placed(hash, buckets)
  {
    FlatEmpty(buckets);
  }

  /** The inner loop of rehash: one old bucket is emptied into the new ones. */
  method MoveBucket<E>(hash: E -> nat, bucket: seq<E>, into: seq<seq<E>>) returns (renewed: seq<seq<E>>)
    requires into != [] && Placed(hash, into)
    ensures |renewed| == |into| && Placed(hash, renewed) && Flat(renewed) == Flat(into) + multiset(bucket)
  {
    hide *;
    renewed := into;
    for j := 0 to |bucket|
      invariant |renewed| == |into| && Placed(hash, renewed) && Flat(renewed) == Flat(into) + multiset(bucket[..j])
    {
      var b := BucketOf(hash, |renewed|, bucket[j]);
      PushFront(renewed, b, bucket[j]);
      PlacedPush(hash, renewed, bucket[j]);
      assert bucket[..j + 1] == bucket[..j] + [bucket[j]];
      renewed := renewed[b := [bucket[j]] + renewed[b]];
    }
    assert bucket[..|bucket|] == bucket;
  }

  /** The loops of rehash: every element moves to its bucket among `n` new ones. */
  method Distribute<E>(hash: E -> nat, buckets: seq<seq<E>>, n: nat) returns (renewed: seq<seq<E>>)
    requires n > 0
    ensures |renewed| == n && Placed(hash, renewed) && Flat(renewed) == Flat(buckets)
  {
    hide *;
    renewed := seq(n, _ => []);
    NoElements(hash, renewed);
    assert buckets[..0] == [];
    for i := 0 to |buckets|
      invariant |renewed| == n && Placed(hash, renewed) && Flat(renewed) == Flat(buckets[..i])
    {
      renewed := MoveBucket(hash, buckets[i], renewed);
      FlatNext(buckets, i);
    }
    assert buckets[..|buckets|] == buckets;
  }

  // ----- sequences of operations on the map -----

  datatype Op<E> = InsertOp(e: E) | ReplaceOp(e: E) | FindOp(e: E) | DeleteOp(e: E) | ClearOp

  /** One operation on the map, its answer and the map after it. */
  ghost predicate Performs<E(!new)>(less: Less<E>, m: multiset<E>, op: Op<E>, r: Option<E>, m': multiset<E>)
  {
    match op
    case InsertOp(e) => Answer(less, m, e, r) && m' == if r.None? then m + multiset{e} else m
    case ReplaceOp(e) => Answer(less, m, e, r) && m' == (if r.None? then m else m - multiset{r.value}) + multiset{e}
    case FindOp(e) => Answer(less, m, e, r) && m' == m
    case DeleteOp(e) => Answer(less, m, e, r) && m' == if r.None? then m else m - multiset{r.value}
    case ClearOp => r == None && m' == multiset{}
  }

  /** A run of operations, through the maps `ms`. */
  ghost predicate Executes<E(!new)>(less: Less<E>, ms: seq<multiset<E>>, ops: seq<Op<E>>, rs: seq<Option<E>>)
  {
    |ms| == |ops| + 1 && |rs| == |ops| && forall i :: 0 <= i < |ops| ==> Performs(less, ms[i], ops[i], rs[i], ms[i + 1])
  }

  lemma PerformsApart<E(!new)>(less: Less<E>, hash: E -> nat, m: multiset<E>, op: Op<E>, r: Option<E>, m': multiset<E>)
    requires Laws(less, hash) && Apart(less, m) && Performs(less, m, op, r, m')
    ensures Apart(less, m')
  {
    match op
    case InsertOp(e) => if r.None? { ApartMore(less, hash, m, e); }
    case ReplaceOp(e) =>
      if r.None? {
        ApartMore(less, hash, m, e);
      } else {
        ApartLess(less, hash, m, r.value, e);
        ApartMore(less, hash, m - multiset{r.value}, e);
      }
    case FindOp(_) =>
    case DeleteOp(e) => if r.Some? { ApartLess(less, hash, m, r.value, e); }
    case ClearOp =>
  }

  /** The answers depend only on what the table holds: not on the number of
      buckets, their order, or which resizings found memory. */
  lemma {:induction false} AnswersAgree<E(!new)>(less: Less<E>, hash: E -> nat,
                                                 ms: seq<multiset<E>>, ms': seq<multiset<E>>, ops: seq<Op<E>>,
                                                 rs: seq<Option<E>>, rs': seq<Option<E>>, n: nat)
    requires Laws(less, hash) && Executes(less, ms, ops, rs) && Executes(less, ms', ops, rs')
    requires ms[0] == ms'[0] && Apart(less, ms[0]) && n <= |ops|
    ensures ms[n] == ms'[n] && Apart(less, ms[n]) && rs[..n] == rs'[..n]
  {
    if n > 0 {
      AnswersAgree(less, hash, ms, ms', ops, rs, rs', n - 1);
      var i := n - 1;
      assert Performs(less, ms[i], ops[i], rs[i], ms[i + 1]) && Performs(less, ms'[i], ops[i], rs'[i], ms'[i + 1]);
      if !ops[i].ClearOp? {
        AnswerUnique(less, hash, ms[i], ops[i].e, rs[i], rs'[i]);
      }
      PerformsApart(less, hash, ms[i], ops[i], rs[i], ms[i + 1]);
      assert rs[..n] == rs[..i] + [rs[i]] && rs'[..n] == rs'[..i] + [rs'[i]];
    }
  }

  // ----- the table -----

  /** About two elements to a bucket: the largest power of two up to half the number of
      elements, and four at least. */
  ghost predicate Sized(buckets: nat, elems: nat)
  {
    PowerOf2(buckets) && if elems < 8 then buckets == 4 else buckets <= elems / 2 < 2 * buckets
  }

  class Table<E(!new, ==)> {
    const less: Less<E>
    const hash: E -> nat
    var buckets: seq<seq<E>>
    var elemCnt: nat

    /** What the table holds. */
    ghost function Held(): multiset<E>
      reads this
    {
      Flat(buckets)
    }

    ghost predicate Valid()
      reads this
    {
      && Laws(less, hash) && PowerOf2(|buckets|) && |buckets| >= 4
      && Placed(hash, buckets) && Apart(less, Held()) && elemCnt == |Held()|
    }

    /** hash_init, with its malloc successful. */
    constructor (less: Less<E>, hash: E -> nat)
      requires Laws(less, hash)
      ensures Valid() && Held() == multiset{} && this.less == less && this.hash == hash
    {
      this.less, this.hash := less, hash;
      buckets, elemCnt := [[], [], [], []], 0;
      new;
      FlatEmpty(buckets);
    }

    /** find_elem on the bucket that `e` belongs to. */
    method FindElem(e: E) returns (b: nat, r: Option<nat>)
      requires Valid()
      ensures b == BucketOf(hash, |buckets|, e)
      ensures r.Some? ==> r.value < |buckets[b]| && Equivalent(less, buckets[b][r.value], e)
      ensures r.None? ==> Answer(less, Held(), e, None)
    {
      b := BucketOf(hash, |buckets|, e);
      for i := 0 to |buckets[b]|
        invariant forall j :: 0 <= j < i ==> !Equivalent(less, buckets[b][j], e)
      {
        if Equivalent(less, buckets[b][i], e) {
          return b, Some(i);
        }
      }
      forall x | x in Held() && Equivalent(less, x, e) ensures false {
        LookHere(less, hash, buckets, e, x);
      }
      r := None;
    }

    method Find(e: E) returns (r: Option<E>)
      requires Valid()
      ensures Answer(less, Held(), e, r)
    {
      var b, i := FindElem(e);
      if i.Some? {
        FlatMember(buckets, buckets[b][i.value]);
        r := Some(buckets[b][i.value]);
      } else {
        r := None;
      }
    }

    method InsertElem(b: nat, e: E)
      requires Valid() && b == BucketOf(hash, |buckets|, e) && Answer(less, Held(), e, None)
      modifies this
      ensures Valid() && Held() == old(Held()) + multiset{e} && |buckets| == |old(buckets)|
    {
      ApartMore(less, hash, Held(), e);
      PushFront(buckets, b, e);
      PlacedPush(hash, buckets, e);
      elemCnt := elemCnt + 1;
      buckets := buckets[b := [e] + buckets[b]];
    }

    method RemoveElem(b: nat, i: nat, ghost e: E)
      requires Valid() && b < |buckets| && i < |buckets[b]| && Equivalent(less, buckets[b][i], e)
      modifies this
      ensures Valid() && Held() == old(Held()) - multiset{old(buckets)[b][i]} && |buckets| == |old(buckets)|
      ensures Answer(less, Held(), e, None)
    {
      RemoveAt(buckets, b, i);
      PlacedRemove(hash, buckets, b, i);
      ApartLess(less, hash, Held(), buckets[b][i], e);
      elemCnt := elemCnt - 1;
      buckets := buckets[b := buckets[b][..i] + buckets[b][i + 1..]];
    }

    /** The number of buckets for the current number of elements. */
    method IdealCount() returns (n: nat)
      ensures n == TopBit(if elemCnt / 2 < 4 then 4 else elemCnt / 2) && PowerOf2(n) && n >= 4
    {
      n := elemCnt / 2;
      if n < 4 {
        n := 4;
      }
      ghost var ideal := n;
      TopBitAtLeast(n);
      TurnOffLeast(n);
      while !(n != 0 && And(n, n - 1) == 0)
        invariant n > 0 && TopBit(n) == TopBit(ideal)
        decreases n
      {
        TurnOffLeast(n);
        n := And(n, n - 1);
      }
      TurnOffLeast(n);
      TopBitOfPower(n);
    }

    /** rehash: whether or not its malloc succeeds, the table holds the same elements. */
    method Rehash(mallocOk: bool)
      requires Valid()
      modifies this
      ensures Valid() && Held() == old(Held())
      ensures if mallocOk then Sized(|buckets|, elemCnt) else |buckets| == |old(buckets)|
    {
      var n := IdealCount();
      IdealIsSized(elemCnt, n);
      if n == |buckets| || !mallocOk {
        return;
      }
      var renewed := Distribute(hash, buckets, n);
      buckets := renewed;
    }

    method Insert(e: E, mallocOk: bool) returns (r: Option<E>)
      requires Valid()
      modifies this
      ensures Valid() && Answer(less, old(Held()), e, r)
      ensures Held() == if r.None? then old(Held()) + multiset{e} else old(Held())
      ensures if mallocOk then Sized(|buckets|, elemCnt) else |buckets| == |old(buckets)|
    {
      hide Sized;
      var b, i := FindElem(e);
      r := None;
      if i.None? {
        InsertElem(b, e);
      } else {
        FlatMember(buckets, buckets[b][i.value]);
        r := Some(buckets[b][i.value]);
      }
      Rehash(mallocOk);
    }

    method Replace(e: E, mallocOk: bool) returns (r: Option<E>)
      requires Valid()
      modifies this
      ensures Valid() && Answer(less, old(Held()), e, r)
      ensures Held() == (if r.None? then old(Held()) else old(Held()) - multiset{r.value}) + multiset{e}
      ensures if mallocOk then Sized(|buckets|, elemCnt) else |buckets| == |old(buckets)|
    {
      hide Sized;
      var b, i := FindElem(e);
      r := None;
      if i.Some? {
        FlatMember(buckets, buckets[b][i.value]);
        r := Some(buckets[b][i.value]);
        RemoveElem(b, i.value, e);
      }
      InsertElem(b, e);
      Rehash(mallocOk);
    }

    method Delete(e: E, mallocOk: bool) returns (r: Option<E>)
      requires Valid()
      modifies this
      ensures Valid() && Answer(less, old(Held()), e, r)
      ensures Held() == if r.None? then old(Held()) else old(Held()) - multiset{r.value}
      ensures if mallocOk && r.Some? then Sized(|buckets|, elemCnt) else |buckets| == |old(buckets)|
    {
      hide Sized;
      var b, i := FindElem(e);
      r := None;
      if i.Some? {
        FlatMember(buckets, buckets[b][i.value]);
        r := Some(buckets[b][i.value]);
        RemoveElem(b, i.value, e);
        Rehash(mallocOk);
      }
    }

    method Clear()
      requires Valid()
      modifies this
      ensures Valid() && Held() == multiset{} && |buckets| == |old(buckets)|
    {
      for i := 0 to |buckets|
        invariant |buckets| == |old(buckets)| && forall j :: 0 <= j < i ==> buckets[j] == []
      {
        buckets := buckets[i := []];
      }
      elemCnt := 0;
      FlatEmpty(buckets);
    }

    /** One operation of a run. */
    method Perform(op: Op<E>, mallocOk: bool) returns (r: Option<E>)
      requires Valid()
      modifies this
      ensures Valid() && Performs(less, old(Held()), op, r, Held())
    {
      match op
      case InsertOp(e) => r := Insert(e, mallocOk);
      case ReplaceOp(e) => r := Replace(e, mallocOk);
      case FindOp(e) => r := Find(e);
      case DeleteOp(e) => r := Delete(e, mallocOk);
      case ClearOp =>
        Clear();
        r := None;
    }

    /** Any run of operations, with any of its resizings failing, is a run on the map. */
    method Run(ops: seq<Op<E>>, mallocOk: nat -> bool) returns (rs: seq<Option<E>>, ghost ms: seq<multiset<E>>)
      requires Valid()
      modifies this
      ensures Valid() && Executes(less, ms, ops, rs) && ms[0] == old(Held()) && ms[|ops|] == Held()
    {
      hide Valid, Performs, Held;
      rs, ms := [], [Held()];
      for i := 0 to |ops|
        invariant Valid() && Executes(less, ms, ops[..i], rs) && ms[0] == old(Held()) && ms[i] == Held()
      {
        var r := Perform(ops[i], mallocOk(i));
        ExecutesMore(less, ms, ops[..i], rs, ops[i], r, Held());
        assert ops[..i + 1] == ops[..i] + [ops[i]];
        rs, ms := rs + [r], ms + [Held()];
      }
      assert ops[..|ops|] == ops;
    }
  }

  lemma ExecutesMore<E(!new)>(less: Less<E>, ms: seq<multiset<E>>, ops: seq<Op<E>>, rs: seq<Option<E>>,
                              op: Op<E>, r: Option<E>, m: multiset<E>)
    requires Executes(less, ms, ops, rs) && Performs(less, ms[|ops|], op, r, m)
    ensures Executes(less, ms + [m], ops + [op], rs + [r])
  {
  }

  lemma IdealIsSized(elems: nat, n: nat)
    requires n == TopBit(if elems / 2 < 4 then 4 else elems / 2)
    ensures Sized(n, elems)
  {
    TopBitOfPower(4);
  }

  lemma TopBitAtLeast(x: nat)
    requires x >= 4
    ensures TopBit(x) >= 4
  {
  }

  lemma {:induction false} TopBitOfPower(x: nat)
    requires PowerOf2(x)
    ensures TopBit(x) == x
  {
    if x > 1 {
      TopBitOfPower(x / 2);
    }
  }
}
