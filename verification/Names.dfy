/** Names, paths and the order of strings that the file lists are sorted by. */
module Names {

  predicate IsName(s: string) {
    s != "" && s != "." && s != ".." && '/' !in s
  }

  /** One entry of a directory. */
  type Name = s: string | IsName(s) witness "a"

  /** A path below the root of a subvolume; [] is the root. For paths, p < q says that q is below p. */
  type Path = seq<Name>

  function Parent(p: Path): Path
    requires p != []
  {
    p[..|p| - 1]
  }

  function Base(p: Path): Name
    requires p != []
  {
    p[|p| - 1]
  }

  lemma ParentAndBase(p: Path, n: Name)
    ensures Parent(p + [n]) == p && Base(p + [n]) == n && p < p + [n]
  {
  }

  /** The path as the reports and the kernel spell it: "/usr/bin". */
  function Render(p: Path): string {
    if p == [] then "" else Render(Parent(p)) + "/" + Base(p)
  }

  /** Every component follows a slash. */
  lemma RenderIs(p: Path, n: Name)
    ensures Render([]) == "" && Render(p + [n]) == Render(p) + "/" + n
  {
    ParentAndBase(p, n);
  }

  function LastSlash(s: string): (i: nat)
    requires '/' in s
    ensures i < |s| && s[i] == '/' && '/' !in s[i + 1..]
  {
    if s[|s| - 1] == '/' then |s| - 1
    else
      assert s == s[..|s| - 1] + [s[|s| - 1]];
      LastSlash(s[..|s| - 1])
  }

  function Piece(s: string): Path {
    if IsName(s) then [s] else []
  }

  /** How the kernel reads a path: components between slashes, empty ones and "." skipped. */
  function Parse(s: string): Path {
    if '/' in s then var i := LastSlash(s); Parse(s[..i]) + Piece(s[i + 1..]) else Piece(s)
  }

  lemma LastSlashIs(s: string, i: nat)
    requires i < |s| && s[i] == '/' && '/' !in s[i + 1..]
    ensures LastSlash(s) == i
  {
  }

  lemma ParseStep(front: string, n: Name)
    ensures Parse(front + "/" + n) == Parse(front) + [n]
  {
    var s := front + "/" + n;
    assert s[|front|] == '/' && s[|front| + 1..] == n && s[..|front|] == front;
    LastSlashIs(s, |front|);
  }

  lemma {:induction false} ParseRender(p: Path)
    ensures Parse(Render(p)) == p
  {
    if p != [] {
      var front, n := Render(Parent(p)), Base(p);
      ParseRender(Parent(p));
      ParseStep(front, n);
      assert Render(p) == front + "/" + n;
      assert p == Parent(p) + [n];
    }
  }

  lemma RenderInjective(p: Path, q: Path)
    requires Render(p) == Render(q)
    ensures p == q
  {
    ParseRender(p);
    ParseRender(q);
  }

  /** Byte-wise lexicographic order: std::string's operator<. */
  predicate Less(a: string, b: string) {
    b != "" && (a == "" || a[0] < b[0] || (a[0] == b[0] && Less(a[1..], b[1..])))
  }

  lemma {:induction false} LessTotal(a: string, b: string)
    ensures !(Less(a, b) && Less(b, a))
    ensures a == b <==> !Less(a, b) && !Less(b, a)
  {
    if a != "" && b != "" && a[0] == b[0] {
      LessTotal(a[1..], b[1..]);
      assert a == [a[0]] + a[1..] && b == [b[0]] + b[1..];
    }
  }

  lemma {:induction false} LessTransitive(a: string, b: string, c: string)
    requires Less(a, b) && Less(b, c)
    ensures Less(a, c)
  {
    if a != "" && a[0] == b[0] == c[0] {
      LessTransitive(a[1..], b[1..], c[1..]);
    }
  }

  lemma {:induction false} PrefixLess(a: string, b: string)
    requires a < b
    ensures Less(a, b)
  {
    if a != "" {
      assert a[1..] < b[1..] by {
        assert b[..|a|] == a;
        assert b[1..][..|a| - 1] == a[1..];
      }
      PrefixLess(a[1..], b[1..]);
    }
  }

  /** The first byte in which a and b differ is i, and a has the smaller one. */
  predicate SmallerAt(a: string, b: string, i: nat) {
    i < |a| && i < |b| && a[..i] == b[..i] && a[i] < b[i]
  }

  lemma {:induction false} SmallerIsLess(a: string, b: string, i: nat)
    requires SmallerAt(a, b, i)
    ensures Less(a, b)
  {
    if i > 0 {
      assert a[0] == a[..i][0] == b[..i][0] == b[0];
      assert a[1..][..i - 1] == a[..i][1..] && b[1..][..i - 1] == b[..i][1..];
      SmallerIsLess(a[1..], b[1..], i - 1);
    }
  }

  lemma {:induction false} LessSomewhere(a: string, b: string)
    requires Less(a, b)
    ensures a < b || exists i: nat :: SmallerAt(a, b, i)
  {
    if a != "" && a[0] < b[0] {
      assert SmallerAt(a, b, 0);
    } else if a != "" {
      LessSomewhere(a[1..], b[1..]);
      assert a == [a[0]] + a[1..] && b == [b[0]] + b[1..];
      if i: nat :| SmallerAt(a[1..], b[1..], i) {
        assert a[..i + 1] == [a[0]] + a[1..][..i] && b[..i + 1] == [b[0]] + b[1..][..i];
        assert SmallerAt(a, b, i + 1);
      }
    }
  }

  /** a comes first if it is a proper beginning of b, or has the smaller byte where they first differ. */
  lemma LessIff(a: string, b: string)
    ensures Less(a, b) <==> a < b || exists i: nat :: SmallerAt(a, b, i)
  {
    if Less(a, b) {
      LessSomewhere(a, b);
    } else if i: nat :| SmallerAt(a, b, i) {
      SmallerIsLess(a, b, i);
    } else if a < b {
      PrefixLess(a, b);
    }
  }

  lemma {:induction false} RenderPrefix(p: Path, q: Path)
    requires p < q
    ensures Render(p) < Render(q)
  {
    if |q| == |p| + 1 {
      assert Parent(q) == p;
    } else {
      assert p < Parent(q);
      RenderPrefix(p, Parent(q));
    }
  }

  /** A directory comes before everything below it in a sorted list of paths. */
  lemma AncestorsFirst(p: Path, q: Path)
    requires p < q
    ensures Less(Render(p), Render(q))
  {
    RenderPrefix(p, q);
    PrefixLess(Render(p), Render(q));
  }

  /** Nondecreasing keys. */
  ghost predicate SortedBy<T>(xs: seq<T>, key: T -> string) {
    forall i, j :: 0 <= i < j < |xs| ==> !Less(key(xs[j]), key(xs[i]))
  }

  /** Where to insert x so that a sorted list stays sorted: after every key not greater. */
  method InsertionPoint<T>(xs: seq<T>, x: T, key: T -> string) returns (i: nat)
    requires SortedBy(xs, key)
    ensures i <= |xs|
    ensures forall k :: 0 <= k < i ==> !Less(key(x), key(xs[k]))
    ensures forall k :: i <= k < |xs| ==> !Less(key(xs[k]), key(x))
  {
    i := |xs|;
    while i > 0 && Less(key(x), key(xs[i - 1]))
      invariant 0 <= i <= |xs|
      invariant forall k :: i <= k < |xs| ==> Less(key(x), key(xs[k]))
    {
      i := i - 1;
    }
    forall k | 0 <= k < i ensures !Less(key(x), key(xs[k])) {
      if Less(key(x), key(xs[k])) {
        LessBelow(key(x), key(xs[k]), key(xs[i - 1]));
      }
    }
    forall k | i <= k < |xs| ensures !Less(key(xs[k]), key(x)) {
      LessTotal(key(xs[k]), key(x));
    }
  }

  lemma LessBelow(a: string, b: string, c: string)
    requires Less(a, b) && !Less(c, b)
    ensures Less(a, c)
  {
  }

  lemma InsertedSorted<T>(ys: seq<T>, x: T, i: nat, key: T -> string)
    requires SortedBy(ys, key) && i <= |ys|
    requires forall k :: 0 <= k < i ==> !Less(key(x), key(ys[k]))
    requires forall k :: i <= k < |ys| ==> !Less(key(ys[k]), key(x))
    ensures SortedBy(ys[..i] + [x] + ys[i..], key)
    ensures multiset(ys[..i] + [x] + ys[i..]) == multiset(ys) + multiset{x}
  {
    assert ys == ys[..i] + ys[i..];
  }

  /** The contract of std::sort: the same elements, in nondecreasing order of their keys. */
  method Sort<T>(xs: seq<T>, key: T -> string) returns (ys: seq<T>)
    ensures SortedBy(ys, key)
    ensures multiset(ys) == multiset(xs)
  {
    ys := [];
    for n := 0 to |xs|
      invariant SortedBy(ys, key)
      invariant multiset(ys) == multiset(xs[..n])
    {
      var i := InsertionPoint(ys, xs[n], key);
      InsertedSorted(ys, xs[n], i, key);
      ys := ys[..i] + [xs[n]] + ys[i..];
      assert xs[..n + 1] == xs[..n] + [xs[n]];
    }
    assert xs[..|xs|] == xs;
  }
}
