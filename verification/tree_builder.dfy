/** The tree builder inlined in `main`: records are bucketed by their
    `Parent` string, then every bucket is stable-sorted by `Name`. */
module TreeBuilder {
  import opened Bookmarks
  import opened NameOrder

  /** Parent name to its direct children. */
  type Tree = map<string, seq<Bookmark>>

  /** The records of `bs` whose parent is `key`, in input order. */
  function WithParent(bs: seq<Bookmark>, key: string): seq<Bookmark> {
    if bs == [] then [] else (if bs[0].parent == key then [bs[0]] else []) + WithParent(bs[1..], key)
  }

  /** The records of `bs` named `name`, in order. */
  function WithName(bs: seq<Bookmark>, name: string): seq<Bookmark> {
    if bs == [] then [] else (if bs[0].name == name then [bs[0]] else []) + WithName(bs[1..], name)
  }

  /** Non-decreasing by name under Go's string order. */
  predicate SortedByName(bs: seq<Bookmark>) {
    forall i, j | 0 <= i < j < |bs| :: !Less(bs[j].name, bs[i].name)
  }

  // ---------------------------------------------------------------------
  // Bucketing

  /** Some record of `bs` has parent `k`. */
  predicate HasParent(bs: seq<Bookmark>, k: string) {
    bs != [] && (bs[0].parent == k || HasParent(bs[1..], k))
  }

  lemma {:induction false} HasParentIff(bs: seq<Bookmark>, k: string)
    ensures HasParent(bs, k) <==> exists i | 0 <= i < |bs| :: bs[i].parent == k
  {
    if bs != [] {
      HasParentIff(bs[1..], k);
      if exists i | 0 <= i < |bs| :: bs[i].parent == k {
        var i :| 0 <= i < |bs| && bs[i].parent == k;
        if i > 0 {
          assert bs[1..][i - 1] == bs[i];
        }
      }
      if HasParent(bs[1..], k) {
        var i :| 0 <= i < |bs[1..]| && bs[1..][i].parent == k;
        assert bs[i + 1] == bs[1..][i];
      }
    }
  }

  /** The loop `tree[b.Parent] = append(tree[b.Parent], b)` over the input:
      every parent of the input is a key, and its bucket holds exactly the
      records with that parent, in input order. */
  function Buckets(bs: seq<Bookmark>): (m: Tree)
    ensures forall k :: k in m <==> HasParent(bs, k)
    ensures forall k | k in m :: m[k] == WithParent(bs, k)
    ensures forall k | k !in m :: WithParent(bs, k) == []
  {
    if bs == [] then map[]
    else
      var init := bs[..|bs| - 1];
      var b := bs[|bs| - 1];
      var m := Buckets(init);
      assert bs == init + [b];
      BucketsStep(init, b, m);
      m[b.parent := (if b.parent in m then m[b.parent] else []) + [b]]
  }

  /** One iteration of the bucketing loop keeps the bucket invariant. */
  lemma {:induction false} BucketsStep(init: seq<Bookmark>, b: Bookmark, m: Tree)
    requires forall k :: k in m <==> HasParent(init, k)
    requires forall k | k in m :: m[k] == WithParent(init, k)
    requires forall k | k !in m :: WithParent(init, k) == []
    ensures var m' := m[b.parent := (if b.parent in m then m[b.parent] else []) + [b]];
      && (forall k :: k in m' <==> HasParent(init + [b], k))
      && (forall k | k in m' :: m'[k] == WithParent(init + [b], k))
      && (forall k | k !in m' :: WithParent(init + [b], k) == [])
  {
    WithParentSnoc(init, b);
    ParentsSnoc(init, b);
  }

  /** Appending `b` adds `b.parent` to the parents that occur. */
  lemma {:induction false} ParentsSnoc(bs: seq<Bookmark>, b: Bookmark)
    ensures forall k :: HasParent(bs + [b], k) <==> k == b.parent || HasParent(bs, k)
  {
    forall k ensures HasParent(bs + [b], k) <==> k == b.parent || HasParent(bs, k) {
      HasParentSnoc(bs, b, k);
    }
  }

  lemma {:induction false} HasParentSnoc(bs: seq<Bookmark>, b: Bookmark, k: string)
    ensures HasParent(bs + [b], k) <==> k == b.parent || HasParent(bs, k)
  {
    if bs == [] {
      assert bs + [b] == [b];
      assert [b][1..] == [];
    } else {
      assert (bs + [b])[0] == bs[0];
      assert (bs + [b])[1..] == bs[1..] + [b];
      HasParentSnoc(bs[1..], b, k);
    }
  }

  lemma {:induction false} WithParentSnoc(bs: seq<Bookmark>, b: Bookmark)
    ensures forall k | k != b.parent :: WithParent(bs + [b], k) == WithParent(bs, k)
    ensures WithParent(bs + [b], b.parent) == WithParent(bs, b.parent) + [b]
  {
    forall k ensures WithParent(bs + [b], k) == WithParent(bs, k) + (if b.parent == k then [b] else []) {
      WithParentAppend(bs, [b], k);
      assert [b][1..] == [];
    }
    forall k | k != b.parent ensures WithParent(bs + [b], k) == WithParent(bs, k) {
      assert WithParent(bs, k) + [] == WithParent(bs, k);
    }
  }

  lemma {:induction false} WithParentAppend(a: seq<Bookmark>, c: seq<Bookmark>, k: string)
    ensures WithParent(a + c, k) == WithParent(a, k) + WithParent(c, k)
  {
    if a == [] {
      assert a + c == c;
    } else {
      var head := if a[0].parent == k then [a[0]] else [];
      assert (a + c)[0] == a[0];
      assert (a + c)[1..] == a[1..] + c;
      WithParentAppend(a[1..], c, k);
      calc {
        WithParent(a + c, k);
        head + WithParent(a[1..] + c, k);
        head + (WithParent(a[1..], k) + WithParent(c, k));
        (head + WithParent(a[1..], k)) + WithParent(c, k);
        WithParent(a, k) + WithParent(c, k);
      }
    }
  }

  lemma {:induction false} WithParentMembers(bs: seq<Bookmark>, k: string)
    ensures forall b :: b in WithParent(bs, k) <==> b in bs && b.parent == k
  {
    if bs != [] {
      WithParentMembers(bs[1..], k);
      assert bs == [bs[0]] + bs[1..];
    }
  }

  // ---------------------------------------------------------------------
  // Stable sort

  /** Places `x` before the first element whose name is not less than its
      own, so `x` stays ahead of every element with an equal name. */
  function InsertByName(x: Bookmark, s: seq<Bookmark>): seq<Bookmark> {
    if s == [] then [x]
    else if Less(s[0].name, x.name) then [s[0]] + InsertByName(x, s[1..])
    else [x] + s
  }

  /** `sort.SliceStable` by `Name`: the result is ordered by name, is a
      permutation of the input, and keeps records with equal names in input
      order. */
  function SortByName(s: seq<Bookmark>): (r: seq<Bookmark>)
    ensures SortedByName(r)
    ensures multiset(r) == multiset(s)
    ensures forall n :: WithName(r, n) == WithName(s, n)
  {
    if s == [] then []
    else
      var t := SortByName(s[1..]);
      InsertSorted(s[0], t);
      InsertPermutes(s[0], t);
      InsertWithName(s[0], t);
      assert s == [s[0]] + s[1..];
      InsertByName(s[0], t)
  }

  lemma {:induction false} InsertPermutes(x: Bookmark, s: seq<Bookmark>)
    ensures multiset(InsertByName(x, s)) == multiset(s) + multiset{x}
  {
    if s != [] && Less(s[0].name, x.name) {
      InsertPermutes(x, s[1..]);
      assert s == [s[0]] + s[1..];
    }
  }

  lemma {:induction false} InsertWithName(x: Bookmark, s: seq<Bookmark>)
    ensures forall n :: WithName(InsertByName(x, s), n) == (if x.name == n then [x] else []) + WithName(s, n)
  {
    forall n ensures WithName(InsertByName(x, s), n) == (if x.name == n then [x] else []) + WithName(s, n) {
      InsertWithNameAt(x, s, n);
    }
  }

  lemma {:induction false} InsertWithNameAt(x: Bookmark, s: seq<Bookmark>, n: string)
    ensures WithName(InsertByName(x, s), n) == (if x.name == n then [x] else []) + WithName(s, n)
  {
    if s != [] && Less(s[0].name, x.name) {
      InsertWithNameAt(x, s[1..], n);
      LessIrreflexive(x.name);
      var head := if s[0].name == n then [s[0]] else [];
      var r := InsertByName(x, s);
      assert r[0] == s[0] && r[1..] == InsertByName(x, s[1..]);
      assert WithName(r, n) == head + WithName(r[1..], n);
      assert WithName(s, n) == head + WithName(s[1..], n);
      if x.name == n {
        assert head == [];
      }
    }
  }

  /** No record of `s` is named before `y`. */
  predicate NoneBefore(s: seq<Bookmark>, y: string) {
    forall i | 0 <= i < |s| :: !Less(s[i].name, y)
  }

  lemma {:induction false} InsertNoneBefore(x: Bookmark, s: seq<Bookmark>, y: string)
    requires NoneBefore(s, y) && !Less(x.name, y)
    ensures NoneBefore(InsertByName(x, s), y)
  {
    if s != [] && Less(s[0].name, x.name) {
      InsertNoneBefore(x, s[1..], y);
      var r := InsertByName(x, s);
      assert r == [s[0]] + InsertByName(x, s[1..]);
    }
  }

  lemma {:induction false} InsertSorted(x: Bookmark, s: seq<Bookmark>)
    requires SortedByName(s)
    ensures SortedByName(InsertByName(x, s))
  {
    if s == [] {
    } else if Less(s[0].name, x.name) {
      var t := InsertByName(x, s[1..]);
      InsertSorted(x, s[1..]);
      LessAsymmetric(s[0].name, x.name);
      assert NoneBefore(s[1..], s[0].name) by {
        forall i | 0 <= i < |s[1..]| ensures !Less(s[1..][i].name, s[0].name) {
          assert s[1..][i] == s[i + 1];
        }
      }
      InsertNoneBefore(x, s[1..], s[0].name);
      var r := [s[0]] + t;
      forall i, j | 0 <= i < j < |r| ensures !Less(r[j].name, r[i].name) {
        assert r[j] == t[j - 1];
        if i > 0 {
          assert r[i] == t[i - 1];
        }
      }
    } else {
      var r := [x] + s;
      forall j | 0 < j < |r| ensures !Less(r[j].name, x.name) {
        if j > 1 {
          NotAfterTransitive(x.name, s[0].name, r[j].name);
        }
      }
    }
  }

  // ---------------------------------------------------------------------
  // The tree

  /** Bucketing followed by the stable sort of every bucket. */
  function BuildTree(bs: seq<Bookmark>): (tree: Tree)
    ensures forall k :: k in tree <==> HasParent(bs, k)
    ensures forall k | k in tree :: SortedByName(tree[k])
    ensures forall k | k in tree :: multiset(tree[k]) == multiset(WithParent(bs, k))
    ensures forall k, n | k in tree :: WithName(tree[k], n) == WithName(WithParent(bs, k), n)
  {
    var m := Buckets(bs);
    map k | k in m :: SortByName(m[k])
  }

  /** Every input record lands in the bucket keyed by its parent. */
  lemma {:induction false} BuildTreeCovers(bs: seq<Bookmark>)
    ensures forall i | 0 <= i < |bs| :: bs[i].parent in BuildTree(bs) && bs[i] in BuildTree(bs)[bs[i].parent]
  {
    forall i | 0 <= i < |bs| ensures bs[i].parent in BuildTree(bs) && bs[i] in BuildTree(bs)[bs[i].parent] {
      BucketMembers(bs, bs[i].parent, bs[i]);
    }
  }

  /** Every bucket holds only input records with that parent. */
  lemma {:induction false} BuildTreeSeparates(bs: seq<Bookmark>)
    ensures forall k, b: Bookmark | k in BuildTree(bs) && b in BuildTree(bs)[k] :: b.parent == k
    ensures forall k, b: Bookmark | k in BuildTree(bs) && b in BuildTree(bs)[k] :: b in bs
  {
    forall k, b: Bookmark | k in BuildTree(bs) && b in BuildTree(bs)[k] ensures b.parent == k {
      BucketMembers(bs, k, b);
    }
    forall k, b: Bookmark | k in BuildTree(bs) && b in BuildTree(bs)[k] ensures b in bs {
      BucketMembers(bs, k, b);
    }
  }

  lemma {:induction false} BucketMembers(bs: seq<Bookmark>, k: string, b: Bookmark)
    ensures b in bs && b.parent == k ==> k in BuildTree(bs)
    ensures k in BuildTree(bs) ==> (b in BuildTree(bs)[k] <==> b in bs && b.parent == k)
  {
    var tree := BuildTree(bs);
    WithParentMembers(bs, k);
    if b in bs && b.parent == k {
      var i :| 0 <= i < |bs| && bs[i] == b;
      HasParentIff(bs, k);
      assert bs[i].parent == k;
    }
    if k in tree {
      assert b in tree[k] <==> b in multiset(tree[k]);
      assert b in WithParent(bs, k) <==> b in multiset(WithParent(bs, k));
    }
  }

  // ---------------------------------------------------------------------
  // Bucket sizes

  /** The total size of the buckets listed in `keys`. */
  function SizeSum(tree: Tree, keys: seq<string>): nat
    requires forall i | 0 <= i < |keys| :: keys[i] in tree
  {
    if keys == [] then 0 else |tree[keys[0]]| + SizeSum(tree, keys[1..])
  }

  predicate Distinct(keys: seq<string>) {
    forall i, j | 0 <= i < j < |keys| :: keys[i] != keys[j]
  }

  /** However the keys are enumerated, the bucket sizes add up to the number
      of input records. */
  lemma {:induction false} BucketSizesSum(bs: seq<Bookmark>, keys: seq<string>)
    requires Distinct(keys)
    requires forall i | 0 <= i < |keys| :: keys[i] in BuildTree(bs)
    requires forall k | k in BuildTree(bs) :: k in keys
    ensures SizeSum(BuildTree(bs), keys) == |bs|
  {
    var tree := BuildTree(bs);
    forall i | 0 <= i < |bs| ensures bs[i].parent in keys {
      BucketMembers(bs, bs[i].parent, bs[i]);
      assert bs[i].parent in tree;
    }
    SizeSumIsSelection(bs, tree, keys);
    SelectionSizes(bs, keys);
  }

  /** Sum over `keys` of the number of records with that parent. */
  function SelectionSize(bs: seq<Bookmark>, keys: seq<string>): nat {
    if keys == [] then 0 else |WithParent(bs, keys[0])| + SelectionSize(bs, keys[1..])
  }

  lemma {:induction false} SizeSumIsSelection(bs: seq<Bookmark>, tree: Tree, keys: seq<string>)
    requires tree == BuildTree(bs)
    requires forall i | 0 <= i < |keys| :: keys[i] in tree
    ensures SizeSum(tree, keys) == SelectionSize(bs, keys)
  {
    if keys != [] {
      SizeSumIsSelection(bs, tree, keys[1..]);
      assert |multiset(tree[keys[0]])| == |multiset(WithParent(bs, keys[0]))|;
    }
  }

  lemma {:induction false} SelectionSizes(bs: seq<Bookmark>, keys: seq<string>)
    requires Distinct(keys)
    requires forall i | 0 <= i < |bs| :: bs[i].parent in keys
    ensures SelectionSize(bs, keys) == |bs|
  {
    if bs != [] {
      assert forall i | 0 <= i < |bs[1..]| :: bs[1..][i] == bs[i + 1];
      SelectionSizes(bs[1..], keys);
      SelectionCons(bs, keys);
      assert bs[0].parent in keys;
      Hits(bs[0].parent, keys);
    } else {
      SelectionOfNothing(keys);
    }
  }

  lemma {:induction false} SelectionOfNothing(keys: seq<string>)
    ensures SelectionSize([], keys) == 0
  {
    if keys != [] {
      SelectionOfNothing(keys[1..]);
    }
  }

  /** Number of keys equal to `p`. */
  function HitCount(p: string, keys: seq<string>): nat {
    if keys == [] then 0 else (if keys[0] == p then 1 else 0) + HitCount(p, keys[1..])
  }

  lemma {:induction false} Hits(p: string, keys: seq<string>)
    requires Distinct(keys)
    ensures HitCount(p, keys) == if p in keys then 1 else 0
  {
    if keys != [] {
      assert Distinct(keys[1..]) by {
        forall i, j | 0 <= i < j < |keys[1..]| ensures keys[1..][i] != keys[1..][j] {
          assert keys[1..][i] == keys[i + 1] && keys[1..][j] == keys[j + 1];
        }
      }
      Hits(p, keys[1..]);
      if keys[0] == p {
        assert p !in keys[1..] by {
          forall i | 0 <= i < |keys[1..]| ensures keys[1..][i] != p {
            assert keys[1..][i] == keys[i + 1];
          }
        }
      }
      assert keys == [keys[0]] + keys[1..];
    }
  }

  lemma {:induction false} SelectionCons(bs: seq<Bookmark>, keys: seq<string>)
    requires bs != []
    ensures SelectionSize(bs, keys) == HitCount(bs[0].parent, keys) + SelectionSize(bs[1..], keys)
  {
    if keys != [] {
      SelectionCons(bs, keys[1..]);
    }
  }
}
