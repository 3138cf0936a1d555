/** The priority queue `cola` of `(distance, node)` pairs, ordered the way
    Python orders tuples: by distance, ties broken by the node label, labels
    compared code point by code point. */
module MinHeap {
  import opened Graphs

  type Entry = (int, Node)

  /** Lexicographic order on labels; a proper prefix comes first. */
  predicate StrLt(a: string, b: string)
    decreases |a|
  {
    if a == [] then b != []
    else if b == [] then false
    else if a[0] != b[0] then a[0] < b[0]
    else StrLt(a[1..], b[1..])
  }

  /** `x <= y` as tuples. */
  predicate EntryLe(x: Entry, y: Entry)
  {
    x.0 < y.0 || (x.0 == y.0 && !StrLt(y.1, x.1))
  }

  lemma {:induction false} StrLtIrreflexive(a: string)
    ensures !StrLt(a, a)
    decreases |a|
  {
    if a != [] {
      StrLtIrreflexive(a[1..]);
    }
  }

  lemma {:induction false} StrLtTrichotomy(a: string, b: string)
    ensures StrLt(a, b) || a == b || StrLt(b, a)
    decreases |a|
  {
    if a != [] && b != [] && a[0] == b[0] {
      StrLtTrichotomy(a[1..], b[1..]);
      if a[1..] == b[1..] {
        assert a == [a[0]] + a[1..] && b == [b[0]] + b[1..];
      }
    }
  }

  lemma {:induction false} StrLtAsymmetric(a: string, b: string)
    requires StrLt(a, b)
    ensures !StrLt(b, a)
    decreases |a|
  {
    if a != [] && a[0] == b[0] {
      StrLtAsymmetric(a[1..], b[1..]);
    }
  }

  lemma {:induction false} StrLtTransitive(a: string, b: string, c: string)
    requires StrLt(a, b) && StrLt(b, c)
    ensures StrLt(a, c)
    decreases |a|
  {
    if a != [] && a[0] == b[0] && b[0] == c[0] {
      StrLtTransitive(a[1..], b[1..], c[1..]);
    }
  }

  /** Tuple order is total ... */
  lemma EntryLeTotal(x: Entry, y: Entry)
    ensures EntryLe(x, y) || EntryLe(y, x)
  {
    if x.0 == y.0 && StrLt(y.1, x.1) {
      StrLtAsymmetric(y.1, x.1);
    }
  }

  /** ... reflexive ... */
  lemma EntryLeReflexive(x: Entry)
    ensures EntryLe(x, x)
  {
    StrLtIrreflexive(x.1);
  }

  /** ... and transitive. */
  lemma EntryLeTransitive(x: Entry, y: Entry, z: Entry)
    requires EntryLe(x, y) && EntryLe(y, z)
    ensures EntryLe(x, z)
  {
    if x.0 == y.0 == z.0 && StrLt(z.1, x.1) {
      StrLtTrichotomy(z.1, y.1);
      if StrLt(y.1, z.1) {
        StrLtTransitive(y.1, z.1, x.1);
      }
    }
  }

  /** `heapq.heappop`: removes and returns a smallest pair of the queue. */
  method PopMin(cola: seq<Entry>) returns (menor: Entry, resto: seq<Entry>)
    requires cola != []
    ensures menor in cola
    ensures forall e :: e in cola ==> EntryLe(menor, e)
    ensures multiset(cola) == multiset(resto) + multiset{menor}
    ensures |resto| == |cola| - 1
  {
    var m := 0;
    var i := 1;
    EntryLeReflexive(cola[0]);
    while i < |cola|
      invariant 0 <= m < i <= |cola|
      invariant forall j :: 0 <= j < i ==> EntryLe(cola[m], cola[j])
    {
      if !EntryLe(cola[m], cola[i]) {
        EntryLeTotal(cola[m], cola[i]);
        forall j | 0 <= j < i
          ensures EntryLe(cola[i], cola[j])
        {
          EntryLeTransitive(cola[i], cola[m], cola[j]);
        }
        EntryLeReflexive(cola[i]);
        m := i;
      }
      i := i + 1;
    }
    menor := cola[m];
    resto := cola[..m] + cola[m + 1..];
    assert cola == cola[..m] + [cola[m]] + cola[m + 1..];
  }
}
