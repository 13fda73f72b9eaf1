/**
 What a sequence of insertions means. A tree refines the sorted association list of its in-order
 content: lookup is lookup in that list, insertion is insertion into it, and a node that is split keeps
 the content. From this follow the map laws, the ordering of keys and children and the size.
 */
module SearchTreeLaws {
  import opened Wrappers
  import opened SearchTree

  ghost predicate Sorted<V>(s: seq<Entry<V>>) {
    forall i, j | 0 <= i < j < |s| :: s[i].0 < s[j].0
  }

  /** Sets the value of k in a sorted association list. */
  ghost function Put<V>(s: seq<Entry<V>>, k: Key, v: V): (r: seq<Entry<V>>)
    decreases |s|
  {
    if s == [] || k < s[0].0 then [(k, v)] + s
    else if s[0].0 == k then [(k, v)] + s[1..]
    else [s[0]] + Put(s[1..], k, v)
  }

  ghost function Lookup<V>(s: seq<Entry<V>>, k: Key): (r: Option<V>)
    ensures r.Some? ==> (k, r.value) in s
    ensures r.None? <==> forall i | 0 <= i < |s| :: s[i].0 != k
    decreases |s|
  {
    if s == [] then None else if s[0].0 == k then Some(s[0].1) else Lookup(s[1..], k)
  }

  ghost predicate AllBelow<V>(s: seq<Entry<V>>, k: Key) { forall i | 0 <= i < |s| :: s[i].0 < k }

  ghost predicate AllAbove<V>(s: seq<Entry<V>>, k: Key) { forall i | 0 <= i < |s| :: k < s[i].0 }

  lemma {:induction false} PutBehind<V>(a: seq<Entry<V>>, s: seq<Entry<V>>, k: Key, v: V)
    requires AllBelow(a, k)
    ensures Put(a + s, k, v) == a + Put(s, k, v)
    decreases |a|
  {
    if a == [] {
      AddNothing(s);
      AddNothing(Put(s, k, v));
    } else {
      PutBehind(a[1..], s, k, v);
      assert (a + s)[1..] == a[1..] + s;
      Reassociate([a[0]], a[1..], Put(s, k, v));
      assert [a[0]] + a[1..] == a;
    }
  }

  lemma {:induction false} PutBefore<V>(s: seq<Entry<V>>, b: seq<Entry<V>>, k: Key, v: V)
    requires AllAbove(b, k)
    ensures Put(s + b, k, v) == Put(s, k, v) + b
    decreases |s|
  {
    if s == [] {
      AddNothing(b);
    } else {
      assert (s + b)[1..] == s[1..] + b;
      if s[0].0 < k {
        PutBefore(s[1..], b, k, v);
        Reassociate([s[0]], Put(s[1..], k, v), b);
      } else {
        Reassociate([(k, v)], if s[0].0 == k then s[1..] else s, b);
      }
    }
  }

  lemma PutMiddle<V>(a: seq<Entry<V>>, s: seq<Entry<V>>, b: seq<Entry<V>>, k: Key, v: V)
    requires AllBelow(a, k) && AllAbove(b, k)
    ensures Put(a + (s + b), k, v) == a + (Put(s, k, v) + b)
  {
    PutBehind(a, s + b, k, v);
    PutBefore(s, b, k, v);
  }

  lemma {:induction false} LookupMiddle<V>(a: seq<Entry<V>>, s: seq<Entry<V>>, b: seq<Entry<V>>, k: Key)
    requires AllBelow(a, k) && AllAbove(b, k)
    ensures Lookup(a + (s + b), k) == Lookup(s, k)
    decreases |a| + |s|
  {
    if a != [] {
      LookupMiddle(a[1..], s, b, k);
      assert (a + (s + b))[1..] == a[1..] + (s + b);
    } else if s != [] && s[0].0 != k {
      LookupMiddle([], s[1..], b, k);
      assert (a + (s + b))[1..] == [] + (s[1..] + b);
    } else if s == [] {
      assert a + (s + b) == b;
      assert Lookup(b, k).None?;
    }
  }

  lemma {:induction false} PutHolds<V>(s: seq<Entry<V>>, k: Key, v: V)
    requires Sorted(s)
    ensures forall e :: e in Put(s, k, v) <==> e == (k, v) || (e in s && e.0 != k)
    decreases |s|
  {
    if s != [] {
      assert s == [s[0]] + s[1..];
      if s[0].0 < k {
        PutHolds(s[1..], k, v);
      }
    }
  }

  lemma {:induction false} PutAbove<V>(s: seq<Entry<V>>, k: Key, v: V, b: Key)
    requires b < k && AllAbove(s, b)
    ensures AllAbove(Put(s, k, v), b)
    decreases |s|
  {
    if s != [] && s[0].0 < k {
      PutAbove(s[1..], k, v, b);
    }
  }

  lemma {:induction false} PutSorted<V>(s: seq<Entry<V>>, k: Key, v: V)
    requires Sorted(s)
    ensures Sorted(Put(s, k, v))
    decreases |s|
  {
    if s != [] && s[0].0 < k {
      PutSorted(s[1..], k, v);
      PutAbove(s[1..], k, v, s[0].0);
    }
  }

  lemma {:induction false} PutLength<V>(s: seq<Entry<V>>, k: Key, v: V)
    requires Sorted(s)
    ensures |Put(s, k, v)| == |s| + if Lookup(s, k).Some? then 0 else 1
    decreases |s|
  {
    if s != [] && s[0].0 < k {
      PutLength(s[1..], k, v);
    }
  }

  /** Put behaves like the update of a map. */
  lemma {:induction false} PutLookup<V>(s: seq<Entry<V>>, k: Key, v: V, j: Key)
    ensures Lookup(Put(s, k, v), j) == if j == k then Some(v) else Lookup(s, j)
    decreases |s|
  {
    if s != [] && s[0].0 < k {
      PutLookup(s[1..], k, v, j);
    }
  }

  // ------------------------------------------------------------------------
  // The tree refines its content.

  lemma SortedParts<V>(a: seq<Entry<V>>, b: seq<Entry<V>>)
    requires Sorted(a + b)
    ensures Sorted(a) && Sorted(b)
    ensures forall i, j | 0 <= i < |a| && 0 <= j < |b| :: a[i].0 < b[j].0
  {
    var s := a + b;
    assert forall i | 0 <= i < |a| :: s[i] == a[i];
    assert forall j | 0 <= j < |b| :: s[|a| + j] == b[j];
  }

  lemma {:induction false} PreEnds<V>(ks: seq<Key>, vs: seq<V>, cs: seq<Tree<V>>)
    requires |ks| == |vs| == |cs| && ks != []
    requires forall i | 0 <= i < |cs| :: Shaped(cs[i])
    ensures var p := Pre(ks, vs, cs); p != [] && p[|p| - 1] == (ks[|ks| - 1], vs[|vs| - 1])
    decreases |ks|
  {
    if |ks| > 1 {
      PreEnds(ks[1..], vs[1..], cs[1..]);
    }
  }

  ghost function Before<V>(t: Tree<V>, pos: nat): seq<Entry<V>>
    requires Shaped(t) && t.kids != [] && pos <= |t.keys|
  {
    Pre(t.keys[..pos], t.vals[..pos], t.kids[..pos])
  }

  ghost function After<V>(t: Tree<V>, pos: nat): seq<Entry<V>>
    requires Shaped(t) && t.kids != [] && pos <= |t.keys|
  {
    Post(t.keys[pos..], t.vals[pos..], t.kids[pos + 1..])
  }

  ghost predicate Ahead<V>(a: seq<Entry<V>>, b: seq<Entry<V>>) {
    forall i, j | 0 <= i < |a| && 0 <= j < |b| :: a[i].0 < b[j].0
  }

  lemma SortedThree<V>(a: seq<Entry<V>>, s: seq<Entry<V>>, b: seq<Entry<V>>)
    requires Sorted(a + (s + b))
    ensures Sorted(a) && Sorted(s) && Sorted(b) && Ahead(a, s) && Ahead(s, b) && Ahead(a, b)
  {
    SortedParts(a, s + b);
    SortedParts(s, b);
    assert forall j | 0 <= j < |s| :: (s + b)[j] == s[j];
    assert forall j | 0 <= j < |b| :: (s + b)[|s| + j] == b[j];
  }

  /** The keys of the node next to a child. */
  lemma Neighbours<V>(t: Tree<V>, pos: nat)
    requires Shaped(t) && t.kids != [] && pos <= |t.keys|
    ensures var s := Before(t, pos);
      if pos == 0 then s == [] else s != [] && s[|s| - 1] == (t.keys[pos - 1], t.vals[pos - 1])
    ensures var s := After(t, pos);
      if pos == |t.keys| then s == [] else s != [] && s[0] == (t.keys[pos], t.vals[pos])
  {
    if pos > 0 {
      PreEnds(t.keys[..pos], t.vals[..pos], t.kids[..pos]);
    }
  }

  /** The keys left of a child and the keys right of it, when the content is sorted. */
  lemma AroundChild<V>(t: Tree<V>, k: Key)
    requires Shaped(t) && t.kids != [] && Sorted(Flat(t))
    requires var pos := FindPos(t.keys, k); pos < |t.keys| ==> t.keys[pos] != k
    ensures var pos := FindPos(t.keys, k);
      && AllBelow(Before(t, pos), k) && AllAbove(After(t, pos), k) && Sorted(Flat(t.kids[pos]))
      && Flat(t) == Before(t, pos) + (Flat(t.kids[pos]) + After(t, pos))
  {
    var pos := FindPos(t.keys, k);
    FlatAt(t, pos);
    SortedThree(Before(t, pos), Flat(t.kids[pos]), After(t, pos));
    Neighbours(t, pos);
    BelowLast(Before(t, pos), k);
    AboveFirst(After(t, pos), k);
  }

  lemma BelowLast<V>(s: seq<Entry<V>>, k: Key)
    requires Sorted(s) && (s != [] ==> s[|s| - 1].0 < k)
    ensures AllBelow(s, k)
  {
  }

  lemma AboveFirst<V>(s: seq<Entry<V>>, k: Key)
    requires Sorted(s) && (s != [] ==> k < s[0].0)
    ensures AllAbove(s, k)
  {
  }

  lemma {:induction false} SortedLookup<V>(s: seq<Entry<V>>, a: seq<Entry<V>>, e: Entry<V>, b: seq<Entry<V>>)
    requires s == a + ([e] + b) && Sorted(s)
    ensures Lookup(s, e.0) == Some(e.1)
    decreases |a|
  {
    if a != [] {
      assert s[1..] == a[1..] + ([e] + b);
      SortedParts(a, [e] + b);
      assert a[0].0 < ([e] + b)[0].0;
      SortedLookup(s[1..], a[1..], e, b);
    }
  }

  lemma LeafLookup<V>(ks: seq<Key>, vs: seq<V>, k: Key)
    requires |ks| == |vs| && Sorted(Zip(ks, vs))
    ensures var pos := FindPos(ks, k);
      Lookup(Zip(ks, vs), k) == if pos < |ks| && ks[pos] == k then Some(vs[pos]) else None
  {
    var pos := FindPos(ks, k);
    var z := Zip(ks, vs);
    if pos < |ks| {
      if ks[pos] == k {
        SortedLookup(z, z[..pos], z[pos], z[pos + 1..]);
      } else {
        assert forall i | pos < i < |z| :: z[pos].0 < z[i].0;
      }
    }
  }

  /** No inner node is without keys; the search of the source gives up at a node that has none. */
  ghost predicate Populated<V>(t: Tree<V>) {
    && (t.kids != [] ==> t.keys != [])
    && forall i | 0 <= i < |t.kids| :: Populated(t.kids[i])
  }

  /** The search of the source finds what the content of the tree holds under the key. */
  lemma {:induction false} GetIsLookup<V>(t: Tree<V>, k: Key)
    requires Shaped(t) && Populated(t) && Sorted(Flat(t))
    ensures Get(t, k) == Lookup(Flat(t), k)
    decreases t
  {
    var pos := FindPos(t.keys, k);
    if t.kids == [] {
      LeafLookup(t.keys, t.vals, k);
    } else if pos < |t.keys| && t.keys[pos] == k {
      EntryAt(t, pos);
      SortedLookup(Flat(t), Before(t, pos) + Flat(t.kids[pos]), (k, t.vals[pos]),
                   Flat(t.kids[pos + 1]) + After(t, pos + 1));
    } else {
      AroundChild(t, k);
      GetIsLookup(t.kids[pos], k);
      LookupMiddle(Before(t, pos), Flat(t.kids[pos]), After(t, pos), k);
    }
  }

  /** The content of an inner node, seen from one of its entries. */
  lemma EntryAt<V>(t: Tree<V>, pos: nat)
    requires Shaped(t) && t.kids != [] && pos < |t.keys|
    ensures After(t, pos) == [(t.keys[pos], t.vals[pos])] + (Flat(t.kids[pos + 1]) + After(t, pos + 1))
    ensures Flat(t) == (Before(t, pos) + Flat(t.kids[pos]))
                       + ([(t.keys[pos], t.vals[pos])] + (Flat(t.kids[pos + 1]) + After(t, pos + 1)))
  {
    FlatAt(t, pos);
    assert t.keys[pos..][1..] == t.keys[pos + 1..] && t.vals[pos..][1..] == t.vals[pos + 1..];
    assert t.kids[pos + 1..][1..] == t.kids[pos + 2..];
    Reassociate(Before(t, pos), Flat(t.kids[pos]), After(t, pos));
  }

  ghost function Content<V>(r: Inserted<V>): seq<Entry<V>>
    requires if r.Whole? then Shaped(r.tree) else Shaped(r.smaller) && Shaped(r.greater)
  {
    match r
    case Whole(t) => Flat(t)
    case Split(k, v, l, g) => Flat(l) + ([(k, v)] + Flat(g))
  }

  /** Splitting a node keeps its content. */
  lemma SplitKeepsContent<V>(t: Tree<V>)
    requires Shaped(t) && t.keys != []
    ensures Content(SplitNode(t)) == Flat(t)
  {
    var m := |t.keys| / 2;
    if t.kids != [] {
      EntryAt(t, m);
      LowerHalf(t, m);
      UpperHalf(t, m);
    } else {
      LeafHalves(t.keys, t.vals, m);
    }
  }

  lemma LeafHalves<V>(ks: seq<Key>, vs: seq<V>, m: nat)
    requires |ks| == |vs| && m < |ks|
    ensures Zip(ks[..m], vs[..m]) + ([(ks[m], vs[m])] + Zip(ks[m + 1..], vs[m + 1..])) == Zip(ks, vs)
  {
  }

  lemma LowerHalf<V>(t: Tree<V>, m: nat)
    requires Shaped(t) && t.kids != [] && m < |t.keys|
    ensures Flat(Tree(t.keys[..m], t.vals[..m], t.kids[..m + 1])) == Before(t, m) + Flat(t.kids[m])
  {
    var u := Tree(t.keys[..m], t.vals[..m], t.kids[..m + 1]);
    FlatAt(u, m);
    assert u.keys[..m] == u.keys && u.vals[..m] == u.vals && u.kids[..m] == t.kids[..m];
    assert After(u, m) == [];
  }

  lemma UpperHalf<V>(t: Tree<V>, m: nat)
    requires Shaped(t) && t.kids != [] && m < |t.keys|
    ensures Flat(Tree(t.keys[m + 1..], t.vals[m + 1..], t.kids[m + 1..])) == Flat(t.kids[m + 1]) + After(t, m + 1)
  {
    assert t.kids[m + 1..][1..] == t.kids[m + 2..];
  }

  lemma PutHit<V>(a: seq<Entry<V>>, e: Entry<V>, b: seq<Entry<V>>, v: V)
    requires Sorted(a + ([e] + b))
    ensures Put(a + ([e] + b), e.0, v) == a + ([(e.0, v)] + b)
  {
    SortedParts(a, [e] + b);
    assert ([e] + b)[0] == e && ([e] + b)[1..] == b;
    PutBehind(a, [e] + b, e.0, v);
  }

  lemma LeafOverwrite<V>(ks: seq<Key>, vs: seq<V>, pos: nat, v: V)
    requires |ks| == |vs| && pos < |ks| && Sorted(Zip(ks, vs))
    ensures Put(Zip(ks, vs), ks[pos], v) == Zip(ks, vs[pos := v])
  {
    var z := Zip(ks, vs);
    Around(z, pos);
    PutHit(z[..pos], z[pos], z[pos + 1..], v);
    ZipUpdate(ks, vs, pos, v);
  }

  lemma Around<T>(s: seq<T>, pos: nat)
    requires pos < |s|
    ensures s == s[..pos] + ([s[pos]] + s[pos + 1..])
  {
  }

  lemma ZipUpdate<V>(ks: seq<Key>, vs: seq<V>, pos: nat, v: V)
    requires |ks| == |vs| && pos < |ks|
    ensures var z := Zip(ks, vs); Zip(ks, vs[pos := v]) == z[..pos] + ([(ks[pos], v)] + z[pos + 1..])
  {
  }

  lemma ZipInsert<V>(ks: seq<Key>, vs: seq<V>, pos: nat, k: Key, v: V)
    requires |ks| == |vs| && pos <= |ks|
    ensures var z := Zip(ks, vs);
      Zip(InsertAt(ks, pos, k), InsertAt(vs, pos, v)) == z[..pos] + ([(k, v)] + z[pos..])
  {
  }

  lemma LeafInsert<V>(ks: seq<Key>, vs: seq<V>, pos: nat, k: Key, v: V)
    requires |ks| == |vs| && pos <= |ks|
    requires forall i | 0 <= i < pos :: ks[i] < k
    requires forall i | pos <= i < |ks| :: k < ks[i]
    ensures Put(Zip(ks, vs), k, v) == Zip(InsertAt(ks, pos, k), InsertAt(vs, pos, v))
  {
    var z := Zip(ks, vs);
    ZipInsert(ks, vs, pos, k, v);
    assert z == z[..pos] + ([] + z[pos..]);
    PutMiddle(z[..pos], [], z[pos..], k, v);
    assert Put([], k, v) == [(k, v)];
  }

  /** Overwriting an entry of an inner node. */
  lemma OverwriteEntry<V>(t: Tree<V>, pos: nat, v: V)
    requires Shaped(t) && t.kids != [] && pos < |t.keys| && Sorted(Flat(t))
    ensures Flat(t.(vals := t.vals[pos := v])) == Put(Flat(t), t.keys[pos], v)
  {
    var u := t.(vals := t.vals[pos := v]);
    EntryAt(t, pos);
    EntryAt(u, pos);
    assert u.vals[..pos] == t.vals[..pos] && u.vals[pos + 1..] == t.vals[pos + 1..];
    PutHit(Before(t, pos) + Flat(t.kids[pos]), (t.keys[pos], t.vals[pos]),
           Flat(t.kids[pos + 1]) + After(t, pos + 1), v);
  }

  /** Writing a child back. */
  lemma ReplaceChild<V>(t: Tree<V>, pos: nat, c: Tree<V>)
    requires Shaped(t) && t.kids != [] && pos <= |t.keys| && Shaped(c)
    ensures Flat(t.(kids := t.kids[pos := c])) == Before(t, pos) + (Flat(c) + After(t, pos))
  {
    var u := t.(kids := t.kids[pos := c]);
    FlatAt(u, pos);
    assert u.kids[..pos] == t.kids[..pos] && u.kids[pos + 1..] == t.kids[pos + 1..];
  }

  /** Adopting the two halves of a split child. */
  lemma AdoptHalves<V>(t: Tree<V>, pos: nat, k: Key, v: V, l: Tree<V>, r: Tree<V>)
    requires Shaped(t) && t.kids != [] && pos <= |t.keys| && Shaped(l) && Shaped(r)
    ensures Flat(Adopt(t, pos, k, v, l, r)) == Before(t, pos) + ((Flat(l) + ([(k, v)] + Flat(r))) + After(t, pos))
  {
    var u := Adopt(t, pos, k, v, l, r);
    EntryAt(u, pos);
    assert Before(u, pos) == Before(t, pos) by {
      assert u.keys[..pos] == t.keys[..pos] && u.vals[..pos] == t.vals[..pos] && u.kids[..pos] == t.kids[..pos];
    }
    assert After(u, pos + 1) == After(t, pos) by {
      assert u.keys[pos + 1..] == t.keys[pos..] && u.vals[pos + 1..] == t.vals[pos..];
      assert u.kids[pos + 2..] == t.kids[pos + 1..];
    }
    RegroupHalves(Before(t, pos), Flat(l), [(k, v)], Flat(r), After(t, pos));
  }

  lemma RegroupHalves<T>(a: seq<T>, l: seq<T>, e: seq<T>, r: seq<T>, b: seq<T>)
    ensures (a + l) + (e + (r + b)) == a + ((l + (e + r)) + b)
  {
  }

  /** A node that is too full is split, which keeps its content. */
  lemma OverflowKeepsContent<V>(t: Tree<V>, order: nat)
    requires Shaped(t)
    ensures Content(Overflow(t, order)) == Flat(t)
  {
    if |t.keys| > order {
      SplitKeepsContent(t);
    }
  }

  lemma InsertIntoLeafIsPut<V>(t: Tree<V>, k: Key, v: V, order: nat)
    requires Shaped(t) && Sorted(Flat(t)) && t.kids == []
    ensures Content(InsertInto(t, k, v, order)) == Put(Flat(t), k, v)
  {
    var pos := FindPos(t.keys, k);
    if pos < |t.keys| && t.keys[pos] == k {
      LeafOverwrite(t.keys, t.vals, pos, v);
    } else {
      var z := Zip(t.keys, t.vals);
      assert forall i | pos < i < |t.keys| :: z[pos].0 < z[i].0;
      LeafInsert(t.keys, t.vals, pos, k, v);
      OverflowKeepsContent(InsertEntry(t, pos, k, v), order);
    }
  }

  /** What has become of a child takes its place. */
  lemma ReplacedChild<V>(t: Tree<V>, pos: nat, c: Inserted<V>, order: nat)
    requires Shaped(t) && t.kids != [] && pos <= |t.keys|
    requires if c.Whole? then Shaped(c.tree) else Shaped(c.smaller) && Shaped(c.greater)
    ensures var r := if c.Whole? then Whole(t.(kids := t.kids[pos := c.tree]))
                     else Overflow(Adopt(t, pos, c.key, c.val, c.smaller, c.greater), order);
      Content(r) == Before(t, pos) + (Content(c) + After(t, pos))
  {
    match c {
      case Whole(u) =>
        ReplaceChild(t, pos, u);
      case Split(mk, mv, l, r) =>
        AdoptHalves(t, pos, mk, mv, l, r);
        OverflowKeepsContent(Adopt(t, pos, mk, mv, l, r), order);
    }
  }

  /**
   Inserting below a node is inserting into its sorted content. When the node had to be split, the two
   halves with the median entry between them hold that content.
   */
  lemma {:induction false} InsertIntoIsPut<V>(t: Tree<V>, k: Key, v: V, order: nat)
    requires Shaped(t) && Sorted(Flat(t))
    ensures Content(InsertInto(t, k, v, order)) == Put(Flat(t), k, v)
    decreases t
  {
    var pos := FindPos(t.keys, k);
    if t.kids == [] {
      InsertIntoLeafIsPut(t, k, v, order);
    } else if pos < |t.keys| && t.keys[pos] == k {
      OverwriteEntry(t, pos, v);
    } else {
      AroundChild(t, k);
      InsertIntoIsPut(t.kids[pos], k, v, order);
      PutMiddle(Before(t, pos), Flat(t.kids[pos]), After(t, pos), k, v);
      ReplacedChild(t, pos, InsertInto(t.kids[pos], k, v, order), order);
    }
  }

  lemma InsertIsPut<V>(t: Tree<V>, k: Key, v: V, order: nat)
    requires Shaped(t) && Sorted(Flat(t))
    ensures Flat(Insert(t, k, v, order)) == Put(Flat(t), k, v)
    ensures Sorted(Flat(Insert(t, k, v, order)))
  {
    InsertIntoIsPut(t, k, v, order);
    PutSorted(Flat(t), k, v);
    match InsertInto(t, k, v, order) {
      case Whole(_) =>
      case Split(mk, mv, l, r) =>
        assert Post([mk], [mv], [l, r][1..]) == [(mk, mv)] + Flat(r);
    }
  }

  /** In a tree with sorted content, keys ascend and every child lies strictly between its separators. */
  lemma ChildrenBetweenSeparators<V>(t: Tree<V>, i: nat, e: Entry<V>)
    requires Shaped(t) && t.kids != [] && Sorted(Flat(t)) && i < |t.kids| && e in Flat(t.kids[i])
    ensures i > 0 ==> t.keys[i - 1] < e.0
    ensures i < |t.keys| ==> e.0 < t.keys[i]
    ensures 0 < i < |t.keys| ==> t.keys[i - 1] < t.keys[i]
  {
    FlatAt(t, i);
    SortedThree(Before(t, i), Flat(t.kids[i]), After(t, i));
    Neighbours(t, i);
    var j :| 0 <= j < |Flat(t.kids[i])| && Flat(t.kids[i])[j] == e;
  }

  /** The median entry of a split child goes strictly below the separator behind the child. */
  lemma MedianBelowSeparator<V>(t: Tree<V>, k: Key, v: V, order: nat)
    requires Shaped(t) && t.kids != [] && Sorted(Flat(t))
    requires var pos := FindPos(t.keys, k);
      pos < |t.keys| && t.keys[pos] != k && InsertInto(t.kids[pos], k, v, order).Split?
    ensures var pos := FindPos(t.keys, k); InsertInto(t.kids[pos], k, v, order).key < t.keys[pos]
  {
    var pos := FindPos(t.keys, k);
    var c := t.kids[pos];
    var r := InsertInto(c, k, v, order);
    AroundChild(t, k);
    InsertIntoIsPut(c, k, v, order);
    var e := (r.key, r.val);
    assert Content(r)[|Flat(r.smaller)|] == e;
    PutHolds(Flat(c), k, v);
    assert e in Put(Flat(c), k, v);
    if e != (k, v) {
      ChildrenBetweenSeparators(t, pos, e);
    }
  }

  // ------------------------------------------------------------------------
  // The values of a tree, node by node, in the order in which the source lists them.

  ghost function PreOrder<V>(t: Tree<V>): seq<V>
    decreases t, 1
  {
    t.vals + PreOrderAll(t.kids)
  }

  ghost function PreOrderAll<V>(cs: seq<Tree<V>>): seq<V>
    decreases cs, 0
  {
    if cs == [] then [] else PreOrder(cs[0]) + PreOrderAll(cs[1..])
  }

  /** The child at position i, and those behind it. */
  lemma PreOrderNext<V>(before: seq<V>, cs: seq<Tree<V>>, i: nat)
    requires i < |cs|
    ensures before + PreOrderAll(cs[i..]) == (before + PreOrder(cs[i])) + PreOrderAll(cs[i + 1..])
  {
    assert cs[i..][1..] == cs[i + 1..];
    Reassociate(before, PreOrder(cs[i]), PreOrderAll(cs[i + 1..]));
  }

  ghost function ValuesOf<V>(s: seq<Entry<V>>): (r: seq<V>)
    ensures |r| == |s| && forall i | 0 <= i < |s| :: r[i] == s[i].1
  {
    seq(|s|, i requires 0 <= i < |s| => s[i].1)
  }

  lemma ValuesConcat<V>(a: seq<Entry<V>>, b: seq<Entry<V>>)
    ensures ValuesOf(a + b) == ValuesOf(a) + ValuesOf(b)
  {
  }

  /** Listing the values node by node lists the value of every entry exactly once. */
  lemma {:induction false} PreOrderIsContent<V>(t: Tree<V>)
    requires Shaped(t)
    ensures multiset(PreOrder(t)) == multiset(ValuesOf(Flat(t)))
    decreases t, 1
  {
    if t.kids == [] {
      assert ValuesOf(Flat(t)) == t.vals;
      assert PreOrder(t) == t.vals;
    } else {
      var c, f := t.kids[0], Post(t.keys, t.vals, t.kids[1..]);
      PreOrderIsContent(c);
      PostValues(t.keys, t.vals, t.kids[1..]);
      ValuesConcat(Flat(c), f);
      var a, b := PreOrder(c), PreOrderAll(t.kids[1..]);
      assert PreOrder(t) == t.vals + (a + b);
      assert multiset(PreOrder(t)) == multiset(t.vals) + (multiset(a) + multiset(b));
    }
  }

  lemma {:induction false} PostValues<V>(ks: seq<Key>, vs: seq<V>, cs: seq<Tree<V>>)
    requires |ks| == |vs| == |cs|
    requires forall i | 0 <= i < |cs| :: Shaped(cs[i])
    ensures multiset(ValuesOf(Post(ks, vs, cs))) == multiset(vs) + multiset(PreOrderAll(cs))
    decreases cs, 0
  {
    if ks != [] {
      PreOrderIsContent(cs[0]);
      PostValues(ks[1..], vs[1..], cs[1..]);
      var f, rest := Flat(cs[0]), Post(ks[1..], vs[1..], cs[1..]);
      ValuesConcat(f, rest);
      ValuesConcat([(ks[0], vs[0])], f + rest);
      assert ValuesOf([(ks[0], vs[0])]) == [vs[0]];
      assert vs == [vs[0]] + vs[1..];
    }
  }
}
