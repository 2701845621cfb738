/** The hash table: chains in a power-of-two number of buckets, resized after every change.

    Elements are known by their addresses; the caller gives a hash and an order on them. */
module Hash {
  import opened Common
  import opened Arithmetic
  import CDivision

  // Bits of natural numbers.

  /** Bitwise and. */
  function And(x: nat, y: nat): (r: nat)
    ensures r <= x && r <= y
  {
    if x == 0 || y == 0 then 0 else 2 * And(x / 2, y / 2) + if x % 2 == 1 && y % 2 == 1 then 1 else 0
  }

  ghost predicate IsPow2(x: nat) {
    exists k: nat :: x == Pow2(k)
  }

  lemma {:induction false} AndSelf(x: nat)
    ensures And(x, x) == x
  {
    if x > 0 {
      AndSelf(x / 2);
    }
  }

  /** Masking with 2^K - 1 is the remainder of division by 2^K. */
  lemma {:induction false} AndMask(h: nat, k: nat)
    ensures Pow2(k) > 0 && And(h, Pow2(k) - 1) == h % Pow2(k)
  {
    if k > 0 {
      AndMask(h / 2, k - 1);
      var p := Pow2(k - 1);
      assert Pow2(k) == 2 * p;
      ModTwice(h, p);
      if h > 0 && p > 1 {
        assert (2 * p - 1) / 2 == p - 1 && (2 * p - 1) % 2 == 1;
      } else if h > 0 {
        assert And(h, 1) == 2 * And(h / 2, 0) + h % 2;
      }
    }
  }

  lemma ModTwice(h: nat, p: nat)
    requires p > 0
    ensures h % (2 * p) == 2 * ((h / 2) % p) + h % 2
  {
    var q, r := (h / 2) / p, (h / 2) % p;
    assert h == 2 * (p * q + r) + h % 2;
    assert h == (2 * p) * q + (2 * r + h % 2);
    CDivision.DivUnique(h, 2 * p, q, 2 * r + h % 2);
  }

  /** The largest power of two that is not above X. */
  function FloorPow2(x: nat): (p: nat)
    requires x > 0
    ensures 0 < p <= x < 2 * p
  {
    if x == 1 then 1 else 2 * FloorPow2(x / 2)
  }

  lemma {:induction false} FloorIsPow2(x: nat)
    requires x > 0
    ensures IsPow2(FloorPow2(x))
  {
    if x == 1 {
      assert Pow2(0) == 1;
    } else {
      FloorIsPow2(x / 2);
      var k: nat :| FloorPow2(x / 2) == Pow2(k);
      assert FloorPow2(x) == Pow2(k + 1);
    }
  }

  lemma AndOdd(y: nat)
    ensures And(2 * y + 1, 2 * y) == 2 * y
  {
    AndSelf(y);
    if y > 0 {
      assert (2 * y + 1) / 2 == y && (2 * y) / 2 == y;
    }
  }

  lemma AndEven(y: nat)
    requires y > 0
    ensures And(2 * y, 2 * y - 1) == 2 * And(y, y - 1)
  {
    assert (2 * y) / 2 == y && (2 * y - 1) / 2 == y - 1;
  }

  lemma FloorTwice(y: nat)
    requires y > 0
    ensures FloorPow2(2 * y) == 2 * FloorPow2(y) && FloorPow2(2 * y + 1) == 2 * FloorPow2(y)
  {
    assert (2 * y) / 2 == y && (2 * y + 1) / 2 == y;
  }

  /** X without its lowest bit is zero for a power of two, and else has the same highest bit. */
  ghost predicate Clears(x: nat)
    requires x > 0
  {
    var r := And(x, x - 1);
    && (r == 0 <==> x == FloorPow2(x))
    && r < x
    && (r > 0 ==> FloorPow2(r) == FloorPow2(x))
  }

  lemma ClearOdd(y: nat)
    requires y > 0
    ensures Clears(2 * y + 1)
  {
    hide And, FloorPow2;
    FloorTwice(y);
    AndOdd(y);
  }

  lemma ClearEven(y: nat)
    requires y > 0 && Clears(y)
    ensures Clears(2 * y)
  {
    hide And, FloorPow2;
    FloorTwice(y);
    AndEven(y);
    if And(y, y - 1) > 0 {
      FloorTwice(And(y, y - 1));
    }
  }

  lemma {:induction false} ClearLowest(x: nat)
    requires x > 0
    ensures Clears(x)
  {
    if x > 1 {
      var y := x / 2;
      if x % 2 == 1 {
        ClearOdd(y);
      } else {
        ClearLowest(y);
        ClearEven(y);
      }
    }
  }

  // Tables.

  /** The caller's functions.  Elements neither of which is less than the other have the same key. */
  datatype Keys = Keys(hash: int -> nat, less: (int, int) -> bool) {
    predicate Same(a: int, b: int) {
      !less(a, b) && !less(b, a)
    }

    ghost predicate Ok() {
      && (forall a :: !less(a, a))
      && (forall a, b, c | Same(a, b) && Same(b, c) :: Same(a, c))
      && (forall a, b | Same(a, b) :: hash(a) == hash(b))
    }
  }

  ghost function Home(k: Keys, n: nat, e: int): (i: nat)
    requires n > 0
    ensures i < n
  {
    k.hash(e) % n
  }

  /** Every bucket has just the elements of CONTENTS that belong there, each once. */
  ghost predicate Placed(k: Keys, buckets: seq<seq<int>>, contents: set<int>) {
    && |buckets| > 0
    && (forall i | 0 <= i < |buckets| :: Distinct(buckets[i]))
    && (forall i, e | 0 <= i < |buckets| :: e in buckets[i] <==> e in contents && Home(k, |buckets|, e) == i)
  }

  /** No two elements have the same key. */
  ghost predicate Unique(k: Keys, contents: set<int>) {
    forall a, b | a in contents && b in contents && k.Same(a, b) :: a == b
  }

  ghost predicate Ok(k: Keys, buckets: seq<seq<int>>, contents: set<int>) {
    && k.Ok() && |buckets| >= 4 && IsPow2(|buckets|)
    && Placed(k, buckets, contents) && Unique(k, contents)
  }

  /** The element of CONTENTS with E's key. */
  ghost predicate Looks(k: Keys, contents: set<int>, e: int, r: Option<int>) {
    match r
    case None => forall x | x in contents :: !k.Same(x, e)
    case Some(x) => x in contents && k.Same(x, e)
  }

  /** S without its element X. */
  function Without(s: seq<int>, x: int): seq<int> {
    if s == [] then []
    else if s[0] == x then s[1..]
    else [s[0]] + Without(s[1..], x)
  }

  lemma {:induction false} WithoutIs(s: seq<int>, x: int)
    requires Distinct(s)
    ensures Distinct(Without(s, x))
    ensures forall y :: y in Without(s, x) <==> y in s && y != x
  {
    if s != [] {
      WithoutIs(s[1..], x);
      assert forall y :: y in s <==> y == s[0] || y in s[1..];
      assert s[0] !in s[1..];
    }
  }

  lemma PushedPlaced(k: Keys, buckets: seq<seq<int>>, contents: set<int>, e: int)
    requires Placed(k, buckets, contents) && e !in contents
    ensures var i := Home(k, |buckets|, e); Placed(k, buckets[i := [e] + buckets[i]], contents + {e})
  {
    var i := Home(k, |buckets|, e);
    assert e !in buckets[i];
    assert forall y :: y in [e] + buckets[i] <==> y == e || y in buckets[i];
    hide Home;
  }

  lemma TakenPlaced(k: Keys, buckets: seq<seq<int>>, contents: set<int>, e: int)
    requires Placed(k, buckets, contents) && e in contents
    ensures var i := Home(k, |buckets|, e); Placed(k, buckets[i := Without(buckets[i], e)], contents - {e})
  {
    hide Home;
    var i := Home(k, |buckets|, e);
    WithoutIs(buckets[i], e);
  }

  // Walking over a table.

  /** All elements, bucket by bucket. */
  function Flat(buckets: seq<seq<int>>): seq<int> {
    if buckets == [] then [] else buckets[0] + Flat(buckets[1..])
  }

  lemma {:induction false} FlatMembers(buckets: seq<seq<int>>, e: int)
    ensures e in Flat(buckets) <==> exists i :: 0 <= i < |buckets| && e in buckets[i]
  {
    if buckets != [] {
      FlatMembers(buckets[1..], e);
      if e in Flat(buckets[1..]) {
        var i :| 0 <= i < |buckets[1..]| && e in buckets[1..][i];
        assert e in buckets[i + 1];
      }
      if exists i :: 0 <= i < |buckets| && e in buckets[i] {
        var i :| 0 <= i < |buckets| && e in buckets[i];
        if i > 0 {
          assert e in buckets[1..][i - 1];
        }
      }
    }
  }

  lemma {:induction false} FlatDistinct(buckets: seq<seq<int>>)
    requires forall i | 0 <= i < |buckets| :: Distinct(buckets[i])
    requires forall i, j, e | 0 <= i < j < |buckets| && e in buckets[i] :: e !in buckets[j]
    ensures Distinct(Flat(buckets))
  {
    if buckets != [] {
      var rest := buckets[1..];
      forall i, j, e | 0 <= i < j < |rest| && e in rest[i]
        ensures e !in rest[j]
      {
        assert e in buckets[i + 1] && e !in buckets[j + 1];
      }
      FlatDistinct(rest);
      forall e | e in buckets[0]
        ensures e !in Flat(rest)
      {
        FlatMembers(rest, e);
        assert forall i | 0 <= i < |rest| :: rest[i] == buckets[i + 1];
      }
      var f, g := buckets[0], Flat(rest);
      forall i, j | 0 <= i < j < |f + g|
        ensures (f + g)[i] != (f + g)[j]
      {
        if i < |f| <= j {
          assert f[i] in f && g[j - |f|] in g;
        }
      }
    }
  }

  /** The walk meets every element of the table, and each once. */
  lemma WalkIsContents(k: Keys, buckets: seq<seq<int>>, contents: set<int>)
    requires Placed(k, buckets, contents)
    ensures Distinct(Flat(buckets)) && forall e :: e in Flat(buckets) <==> e in contents
  {
    hide Home;
    forall i, j, e | 0 <= i < j < |buckets| && e in buckets[i]
      ensures e !in buckets[j]
    {
      assert Home(k, |buckets|, e) == i;
    }
    FlatDistinct(buckets);
    forall e
      ensures e in Flat(buckets) <==> e in contents
    {
      FlatMembers(buckets, e);
      if e in contents {
        assert e in buckets[Home(k, |buckets|, e)];
      }
    }
  }

  /** The elements after place I of bucket B. */
  function Rest(buckets: seq<seq<int>>, b: nat, i: int): seq<int>
    requires b < |buckets| && -1 <= i < |buckets[b]|
  {
    buckets[b][i + 1..] + Flat(buckets[b + 1..])
  }

  /** The number of buckets for N elements: a power of two, and two to four elements a bucket if N is at least 8. */
  function Ideal(n: nat): (c: nat)
    ensures c >= 4
    ensures c <= n / 2 < 2 * c || (c == 4 && n < 8)
  {
    FloorPow2(if n / 2 < 4 then 4 else n / 2)
  }

  class HashTable {
    const keys: Keys
    var elemCnt: nat
    var buckets: seq<seq<int>>
    ghost var contents: set<int>

    ghost predicate Valid()
      reads this
    {
      Ok(keys, buckets, contents) && elemCnt == |contents|
    }

    constructor (keys: Keys)
      requires keys.Ok()
      ensures Valid() && this.keys == keys && contents == {}
    {
      this.keys := keys;
      elemCnt := 0;
      buckets := [[], [], [], []];
      contents := {};
      new;
      assert Pow2(2) == 4;
    }

    /** The bucket E belongs in. */
    method FindBucket(e: int) returns (i: nat)
      requires |buckets| > 0 && IsPow2(|buckets|)
      ensures i == Home(keys, |buckets|, e)
    {
      ghost var k: nat :| |buckets| == Pow2(k);
      AndMask(keys.hash(e), k);
      i := And(keys.hash(e), |buckets| - 1);
    }

    method FindElem(i: nat, e: int) returns (r: Option<int>)
      requires Valid() && i == Home(keys, |buckets|, e)
      ensures Looks(keys, contents, e, r)
    {
      hide Home, And, IsPow2;
      var bucket := buckets[i];
      for j := 0 to |bucket|
        invariant forall x | x in bucket[..j] :: !keys.Same(x, e)
      {
        var hi := bucket[j];
        if !keys.less(hi, e) && !keys.less(e, hi) {
          assert hi in bucket;
          return Some(hi);
        }
        assert bucket[..j + 1] == bucket[..j] + [hi];
      }
      assert bucket[..|bucket|] == bucket;
      SameHome(keys, |buckets|, e);
      return None;
    }

    method Find(e: int) returns (r: Option<int>)
      requires Valid()
      ensures Looks(keys, contents, e, r)
    {
      var i := FindBucket(e);
      r := FindElem(i, e);
    }

    method InsertElem(i: nat, e: int)
      requires i < |buckets|
      modifies this
      ensures buckets == old(buckets)[i := [e] + old(buckets)[i]] && elemCnt == old(elemCnt) + 1
              && contents == old(contents) + {e}
    {
      elemCnt := elemCnt + 1;
      buckets := buckets[i := [e] + buckets[i]];
      contents := contents + {e};
    }

    method RemoveElem(i: nat, e: int)
      requires i < |buckets| && e in buckets[i] && elemCnt > 0
      modifies this
      ensures buckets == old(buckets)[i := Without(old(buckets)[i], e)] && elemCnt == old(elemCnt) - 1
              && contents == old(contents) - {e}
    {
      elemCnt := elemCnt - 1;
      buckets := buckets[i := Without(buckets[i], e)];
      contents := contents - {e};
    }

    method IdealCount() returns (n: nat)
      ensures n == Ideal(elemCnt) && IsPow2(n)
    {
      n := elemCnt / 2;
      if n < 4 {
        n := 4;
      }
      ghost var start := n;
      while And(n, n - 1) != 0
        invariant 0 < n && FloorPow2(n) == FloorPow2(start)
        decreases n
      {
        ClearLowest(n);
        n := And(n, n - 1);
      }
      ClearLowest(n);
      FloorIsPow2(start);
    }

    /** Moves the elements to the ideal number of buckets, or leaves all as it is if there is no memory for them. */
    method Rehash(alloc: bool)
      requires Valid()
      modifies this`buckets
      ensures Valid()
      ensures |buckets| == if alloc then Ideal(elemCnt) else |old(buckets)|
    {
      hide Home, IsPow2;
      var n := IdealCount();
      if n == |buckets| || !alloc {
        return;
      }
      var oldBuckets := buckets;
      buckets := seq(n, _ => []);
      ghost var moved: set<int> := {};
      for i := 0 to |oldBuckets|
        invariant |buckets| == n && Placed(keys, buckets, moved)
        invariant forall e :: e in moved <==> e in contents && Home(keys, |oldBuckets|, e) < i
      {
        var bucket := oldBuckets[i];
        ghost var before := moved;
        for j := 0 to |bucket|
          invariant |buckets| == n && Placed(keys, buckets, moved)
          invariant forall e :: e in moved <==> e in before || e in bucket[..j]
        {
          var e := bucket[j];
          assert bucket[..j + 1] == bucket[..j] + [e];
          assert e in bucket && e !in bucket[..j] && e !in before;
          PushedPlaced(keys, buckets, moved, e);
          var home := FindBucket(e);
          buckets := buckets[home := [e] + buckets[home]];
          moved := moved + {e};
        }
        assert bucket[..|bucket|] == bucket;
      }
      assert moved == contents by {
        forall e
          ensures e in moved <==> e in contents
        {
          assert Home(keys, |oldBuckets|, e) < |oldBuckets|;
        }
      }
    }

    /** Adds E unless an element with its key is there, which is then returned. */
    method Insert(e: int, alloc: bool) returns (r: Option<int>)
      requires Valid()
      modifies this
      ensures Valid() && Looks(keys, old(contents), e, r)
      ensures contents == if r.Some? then old(contents) else old(contents) + {e}
      ensures |buckets| == if alloc then Ideal(elemCnt) else |old(buckets)|
    {
      hide Home, IsPow2, Unique;
      var i := FindBucket(e);
      r := FindElem(i, e);
      if r == None {
        AddedUnique(keys, contents, e);
        PushedPlaced(keys, buckets, contents, e);
        InsertElem(i, e);
      }
      Rehash(alloc);
    }

    /** Adds E in place of the element with its key, if there is one, which is returned. */
    method Replace(e: int, alloc: bool) returns (r: Option<int>)
      requires Valid()
      modifies this
      ensures Valid() && Looks(keys, old(contents), e, r)
      ensures contents == (if r.Some? then old(contents) - {r.value} else old(contents)) + {e}
      ensures |buckets| == if alloc then Ideal(elemCnt) else |old(buckets)|
    {
      hide Home, IsPow2, Unique;
      var i := FindBucket(e);
      r := FindElem(i, e);
      if r.Some? {
        SameHome(keys, |buckets|, e);
        Emptied(keys, contents, e, r.value);
        TakenPlaced(keys, buckets, contents, r.value);
        RemoveElem(i, r.value);
      }
      AddedUnique(keys, contents, e);
      PushedPlaced(keys, buckets, contents, e);
      InsertElem(i, e);
      Rehash(alloc);
    }

    /** Takes out the element with E's key, if there is one. */
    method Delete(e: int, alloc: bool) returns (r: Option<int>)
      requires Valid()
      modifies this
      ensures Valid() && Looks(keys, old(contents), e, r)
      ensures contents == if r.Some? then old(contents) - {r.value} else old(contents)
      ensures |buckets| == if alloc && r.Some? then Ideal(elemCnt) else |old(buckets)|
    {
      hide Home, IsPow2, Unique;
      var i := FindBucket(e);
      r := FindElem(i, e);
      if r.Some? {
        SameHome(keys, |buckets|, e);
        Emptied(keys, contents, e, r.value);
        TakenPlaced(keys, buckets, contents, r.value);
        RemoveElem(i, r.value);
        Rehash(alloc);
      }
    }

    /** Goes on from place I of bucket B; place -1 is before the first element. */
    method Next(b: nat, i: int) returns (b': nat, i': int, r: Option<int>)
      requires b < |buckets| && -1 <= i < |buckets[b]|
      ensures var rest := Rest(buckets, b, i);
              if rest == [] then r == None
              else b' < |buckets| && 0 <= i' < |buckets[b']| && r == Some(rest[0]) && r.value == buckets[b'][i']
                   && Rest(buckets, b', i') == rest[1..]
    {
      b', i' := b, i + 1;
      ghost var rest := Rest(buckets, b, i);
      while i' == |buckets[b']|
        invariant b' < |buckets| && 0 <= i' <= |buckets[b']|
        invariant rest == buckets[b'][i'..] + Flat(buckets[b' + 1..])
        decreases |buckets| - b'
      {
        b' := b' + 1;
        if b' >= |buckets| {
          return b', i', None;
        }
        assert buckets[b'..][0] == buckets[b'] && buckets[b'..][1..] == buckets[b' + 1..];
        i' := 0;
      }
      assert rest[1..] == buckets[b'][i' + 1..] + Flat(buckets[b' + 1..]);
      r := Some(buckets[b'][i']);
    }

    /** The loop over all elements that the iterator is for. */
    method Walk() returns (visited: seq<int>)
      requires Valid()
      ensures Distinct(visited) && forall e :: e in visited <==> e in contents
    {
      hide Placed, IsPow2, Unique, Flat, Rest;
      visited := [];
      var b: nat, i: int := 0, -1;
      RestFirst(buckets);
      var more := true;
      while more
        invariant more ==> b < |buckets| && -1 <= i < |buckets[b]| && visited + Rest(buckets, b, i) == Flat(buckets)
        invariant !more ==> visited == Flat(buckets)
        decreases if more then 1 + |Flat(buckets)| - |visited| else 0
      {
        ghost var rest := Rest(buckets, b, i);
        var b', i', r := Next(b, i);
        if r == None {
          more := false;
        } else {
          assert visited + rest == visited + [rest[0]] + rest[1..];
          visited := visited + [r.value];
          b, i := b', i';
        }
      }
      WalkIsContents(keys, buckets, contents);
    }
  }

  lemma RestFirst(buckets: seq<seq<int>>)
    requires buckets != []
    ensures Rest(buckets, 0, -1) == Flat(buckets)
  {
    assert buckets[0][0..] == buckets[0];
  }

  lemma SameHome(k: Keys, n: nat, e: int)
    requires k.Ok() && n > 0
    ensures forall x | k.Same(x, e) :: Home(k, n, x) == Home(k, n, e)
  {
  }

  lemma AddedUnique(k: Keys, contents: set<int>, e: int)
    requires k.Ok() && Unique(k, contents) && forall x | x in contents :: !k.Same(x, e)
    ensures Unique(k, contents + {e}) && e !in contents
  {
    assert k.Same(e, e);
  }

  lemma Emptied(k: Keys, contents: set<int>, e: int, x: int)
    requires k.Ok() && Unique(k, contents) && x in contents && k.Same(x, e)
    ensures Unique(k, contents - {x}) && |contents| > 0 && forall y | y in contents - {x} :: !k.Same(y, e)
  {
    forall y | y in contents - {x}
      ensures !k.Same(y, e)
    {
      assert k.Same(e, x);
      assert k.Same(y, e) ==> k.Same(y, x);
    }
  }
}
