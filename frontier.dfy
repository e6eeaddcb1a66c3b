/** The search frontier: priority keys, frontier entries, the order in which a
    binary min-heap of `(key, city, path)` tuples hands them out, and pop-minimum. */
module Frontier {
  import opened Graph

  /** A priority: a finite number, or the infinity used for a missing heuristic. */
  datatype Key = Fin(value: real) | Inf

  /** Float `<` on keys; infinity is above every finite key and not below itself. */
  predicate KeyLess(a: Key, b: Key)
  {
    match (a, b)
    case (Fin(x), Fin(y)) => x < y
    case (Fin(_), Inf) => true
    case (Inf, _) => false
  }

  /** Float `+` of a key and a finite distance: infinity absorbs it, so a
      location without an estimate is pushed behind every finite key, and a
      finite key moves up by exactly a positive distance. */
  function AddDistance(k: Key, d: real): (r: Key)
    ensures k.Inf? ==> forall x: real :: KeyLess(Fin(x), r)
    ensures k.Fin? ==> (KeyLess(k, r) <==> d > 0.0) && (KeyLess(r, k) <==> d < 0.0)
  {
    match k
    case Fin(x) => Fin(x + d)
    case Inf => Inf
  }

  /** A frontier entry `(key, city, path)`. */
  datatype Entry = Entry(key: Key, city: Location, path: seq<Location>)

  /** String `<`: lexicographic by code point, a proper prefix first. */
  predicate StrLess(a: string, b: string)
  {
    if a == [] then b != []
    else if b == [] then false
    else if a[0] != b[0] then a[0] < b[0]
    else StrLess(a[1..], b[1..])
  }

  /** List `<` on paths: lexicographic, comparing locations with `StrLess`. */
  predicate PathLess(p: seq<Location>, q: seq<Location>)
  {
    if p == [] then q != []
    else if q == [] then false
    else if p[0] != q[0] then StrLess(p[0], q[0])
    else PathLess(p[1..], q[1..])
  }

  /** Tuple `<` on entries: by key, then city, then path. */
  predicate EntryLess(x: Entry, y: Entry)
  {
    KeyLess(x.key, y.key) ||
    (x.key == y.key && (StrLess(x.city, y.city) || (x.city == y.city && PathLess(x.path, y.path))))
  }

  lemma {:induction false} StrLessIrreflexive(a: string)
    ensures !StrLess(a, a)
  {
    if a != [] {
      StrLessIrreflexive(a[1..]);
    }
  }

  lemma {:induction false} StrLessTransitive(a: string, b: string, c: string)
    requires StrLess(a, b) && StrLess(b, c)
    ensures StrLess(a, c)
  {
    if a != [] && a[0] == b[0] && b[0] == c[0] {
      StrLessTransitive(a[1..], b[1..], c[1..]);
    }
  }

  lemma {:induction false} StrLessTrichotomy(a: string, b: string)
    ensures a == b || StrLess(a, b) || StrLess(b, a)
  {
    if a != [] && b != [] && a[0] == b[0] {
      StrLessTrichotomy(a[1..], b[1..]);
      if a[1..] == b[1..] {
        assert a == [a[0]] + a[1..] && b == [b[0]] + b[1..];
      }
    }
  }

  lemma {:induction false} PathLessIrreflexive(p: seq<Location>)
    ensures !PathLess(p, p)
  {
    if p != [] {
      PathLessIrreflexive(p[1..]);
    }
  }

  lemma {:induction false} PathLessTransitive(p: seq<Location>, q: seq<Location>, r: seq<Location>)
    requires PathLess(p, q) && PathLess(q, r)
    ensures PathLess(p, r)
  {
    if p != [] && q != [] && r != [] {
      if p[0] != q[0] && q[0] != r[0] {
        StrLessTransitive(p[0], q[0], r[0]);
        if p[0] == r[0] {
          StrLessIrreflexive(p[0]);
        }
      } else if p[0] == q[0] && q[0] == r[0] {
        PathLessTransitive(p[1..], q[1..], r[1..]);
      }
    }
  }

  lemma {:induction false} PathLessTrichotomy(p: seq<Location>, q: seq<Location>)
    ensures p == q || PathLess(p, q) || PathLess(q, p)
  {
    if p != [] && q != [] {
      if p[0] == q[0] {
        PathLessTrichotomy(p[1..], q[1..]);
        if p[1..] == q[1..] {
          assert p == [p[0]] + p[1..] && q == [q[0]] + q[1..];
        }
      } else {
        StrLessTrichotomy(p[0], q[0]);
      }
    }
  }

  lemma EntryLessIrreflexive(x: Entry)
    ensures !EntryLess(x, x)
  {
    StrLessIrreflexive(x.city);
    PathLessIrreflexive(x.path);
  }

  lemma EntryLessTransitive(x: Entry, y: Entry, z: Entry)
    requires EntryLess(x, y) && EntryLess(y, z)
    ensures EntryLess(x, z)
  {
    if x.key == y.key && y.key == z.key {
      StrLessIrreflexive(x.city);
      StrLessIrreflexive(y.city);
      if x.city == y.city && y.city == z.city {
        PathLessTransitive(x.path, y.path, z.path);
      } else if x.city != y.city && y.city != z.city {
        StrLessTransitive(x.city, y.city, z.city);
      }
    }
  }

  /** Any two distinct entries are ordered one way or the other. */
  lemma EntryLessTrichotomy(x: Entry, y: Entry)
    ensures x == y || EntryLess(x, y) || EntryLess(y, x)
  {
    StrLessTrichotomy(x.city, y.city);
    PathLessTrichotomy(x.path, y.path);
  }

  /** `e` is a least entry of `f` under the tuple order. */
  ghost predicate IsMinimum(f: seq<Entry>, e: Entry)
  {
    e in f && forall x :: x in f ==> !EntryLess(x, e)
  }

  /** The entry a heap pop hands out is determined by the frontier's contents
      alone, whatever the heap's layout. */
  lemma MinimumIsUnique(f: seq<Entry>, a: Entry, b: Entry)
    requires IsMinimum(f, a) && IsMinimum(f, b)
    ensures a == b
  {
    EntryLessTrichotomy(a, b);
  }

  /** A new least entry found by the scan is least among all entries scanned. */
  lemma NewMinimum(f: seq<Entry>, i: int, m: int)
    requires 0 <= m < i < |f|
    requires forall j :: 0 <= j < i ==> !EntryLess(f[j], f[m])
    requires EntryLess(f[i], f[m])
    ensures forall j :: 0 <= j <= i ==> !EntryLess(f[j], f[i])
  {
    forall j | 0 <= j <= i
      ensures !EntryLess(f[j], f[i])
    {
      if j == i {
        EntryLessIrreflexive(f[i]);
      } else if EntryLess(f[j], f[i]) {
        EntryLessTransitive(f[j], f[i], f[m]);
      }
    }
  }

  /** Removing the entry at `m` leaves every other entry, one fewer in all. */
  lemma RemoveAt(f: seq<Entry>, m: int)
    requires 0 <= m < |f|
    ensures var rest := f[..m] + f[m + 1..];
            && multiset(f) == multiset(rest) + multiset{f[m]}
            && |rest| == |f| - 1
            && (forall x :: x in rest ==> x in f)
            && (forall x :: x in f && x != f[m] ==> x in rest)
  {
    var rest := f[..m] + f[m + 1..];
    assert f == f[..m] + [f[m]] + f[m + 1..];
    forall x | x in f && x != f[m]
      ensures x in rest
    {
      var j :| 0 <= j < |f| && f[j] == x;
      if j < m {
        assert rest[j] == x;
      } else {
        assert rest[j - 1] == x;
      }
    }
  }

  /** `heappop`: removes and returns a least entry. */
  method PopMin(f: seq<Entry>) returns (e: Entry, rest: seq<Entry>)
    requires f != []
    ensures IsMinimum(f, e)
    ensures multiset(f) == multiset(rest) + multiset{e}
    ensures |rest| == |f| - 1
    ensures forall x :: x in rest ==> x in f
    ensures forall x :: x in f && x != e ==> x in rest
  {
    var m := 0;
    EntryLessIrreflexive(f[0]);
    for i := 1 to |f|
      invariant 0 <= m < i
      invariant forall j :: 0 <= j < i ==> !EntryLess(f[j], f[m])
    {
      if EntryLess(f[i], f[m]) {
        NewMinimum(f, i, m);
        m := i;
      }
    }
    e := f[m];
    rest := f[..m] + f[m + 1..];
    RemoveAt(f, m);
  }
}
