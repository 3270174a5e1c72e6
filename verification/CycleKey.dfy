/** The rotation-invariant key of a directed cycle, as the paper-trading monitor deduplicates by it. */
module CycleKey {

  /** One entry of a cycle: the pool id and the direction through it. */
  type Entry = (string, bool)

  // --- lexicographic order on sequences, as Python compares tuples and strings ---

  ghost predicate TotalOrder<T(!new)>(le: (T, T) -> bool) {
    && (forall a, b :: le(a, b) || le(b, a))
    && (forall a, b :: le(a, b) && le(b, a) ==> a == b)
    && (forall a, b, c :: le(a, b) && le(b, c) ==> le(a, c))
  }

  predicate LexLe<T(==)>(le: (T, T) -> bool, xs: seq<T>, ys: seq<T>) {
    xs == [] || (ys != [] && (if xs[0] == ys[0] then LexLe(le, xs[1..], ys[1..]) else le(xs[0], ys[0])))
  }

  lemma {:induction false} LexTotal<T(!new)>(le: (T, T) -> bool, xs: seq<T>, ys: seq<T>)
    requires TotalOrder(le)
    ensures LexLe(le, xs, ys) || LexLe(le, ys, xs)
  {
    if xs != [] && ys != [] && xs[0] == ys[0] { LexTotal(le, xs[1..], ys[1..]); }
  }

  lemma {:induction false} LexAntisymmetric<T(!new)>(le: (T, T) -> bool, xs: seq<T>, ys: seq<T>)
    requires TotalOrder(le) && LexLe(le, xs, ys) && LexLe(le, ys, xs)
    ensures xs == ys
  {
    if xs != [] && ys != [] {
      assert xs[0] == ys[0];
      LexAntisymmetric(le, xs[1..], ys[1..]);
      assert xs == [xs[0]] + xs[1..] && ys == [ys[0]] + ys[1..];
    }
  }

  lemma {:induction false} LexTransitive<T(!new)>(le: (T, T) -> bool, xs: seq<T>, ys: seq<T>, zs: seq<T>)
    requires TotalOrder(le) && LexLe(le, xs, ys) && LexLe(le, ys, zs)
    ensures LexLe(le, xs, zs)
  {
    if xs != [] && xs[0] == ys[0] == zs[0] {
      LexTransitive(le, xs[1..], ys[1..], zs[1..]);
    }
  }

  function CharLe(): (char, char) -> bool {
    (a: char, b: char) => a <= b
  }

  predicate StringLe(a: string, b: string) {
    LexLe(CharLe(), a, b)
  }

  /** Pairs compare by pool id, then by direction, `False` first. */
  function EntryLe(): (Entry, Entry) -> bool {
    (a: Entry, b: Entry) => if a.0 == b.0 then !a.1 || b.1 else StringLe(a.0, b.0)
  }

  lemma EntryOrder()
    ensures TotalOrder(EntryLe())
  {
    var le := EntryLe();
    assert TotalOrder(CharLe());
    forall a: Entry, b: Entry ensures le(a, b) || le(b, a) { LexTotal(CharLe(), a.0, b.0); }
    forall a: Entry, b: Entry | le(a, b) && le(b, a) ensures a == b {
      if a.0 != b.0 { LexAntisymmetric(CharLe(), a.0, b.0); }
    }
    forall a: Entry, b: Entry, c: Entry | le(a, b) && le(b, c) ensures le(a, c) {
      if a.0 != b.0 && b.0 != c.0 {
        LexTransitive(CharLe(), a.0, b.0, c.0);
        if a.0 == c.0 { LexAntisymmetric(CharLe(), a.0, b.0); }
      }
    }
  }

  /** `a` sorts before `b`: it is a proper prefix, or has the smaller character where they first differ. */
  ghost predicate Before(a: string, b: string) {
    exists k: nat :: k <= |a| && k < |b| && a[..k] == b[..k] && (k == |a| || a[k] < b[k])
  }

  lemma {:induction false} StringOrder(a: string, b: string)
    ensures StringLe(a, b) <==> a == b || Before(a, b)
  {
    if a == [] {
      if b != [] { assert a[..0] == b[..0]; }
    } else if b == [] {
    } else {
      StringOrder(a[1..], b[1..]);
      assert StringLe(a, b) <==> if a[0] == b[0] then StringLe(a[1..], b[1..]) else a[0] < b[0];
      BeforeTail(a, b);
    }
  }

  lemma BeforeTail(a: string, b: string)
    requires a != [] && b != []
    ensures Before(a, b) <==> if a[0] == b[0] then Before(a[1..], b[1..]) else a[0] < b[0]
    ensures a == b <==> a[0] == b[0] && a[1..] == b[1..]
  {
    assert a == [a[0]] + a[1..] && b == [b[0]] + b[1..];
    if Before(a, b) {
      var k: nat :| k <= |a| && k < |b| && a[..k] == b[..k] && (k == |a| || a[k] < b[k]);
      if k > 0 {
        assert a[0] == a[..k][0] == b[..k][0] == b[0];
        assert a[1..][..k - 1] == a[..k][1..] == b[..k][1..] == b[1..][..k - 1];
      }
    }
    if a[0] == b[0] && Before(a[1..], b[1..]) {
      var k: nat :| k <= |a[1..]| && k < |b[1..]| && a[1..][..k] == b[1..][..k] && (k == |a[1..]| || a[1..][k] < b[1..][k]);
      assert a[..k + 1] == [a[0]] + a[1..][..k] == [b[0]] + b[1..][..k] == b[..k + 1];
    }
    if a[0] < b[0] { assert a[..0] == b[..0]; }
  }

  /** Entries sort by pool id first, and of one pool the reverse direction comes first. */
  lemma EntriesSort(a: Entry, b: Entry)
    ensures EntryLe()(a, b) <==> Before(a.0, b.0) || (a.0 == b.0 && (a.1 ==> b.1))
  {
    StringOrder(a.0, b.0);
    NotBeforeItself(a.0);
    hide Before, StringLe;
  }

  lemma NotBeforeItself(a: string)
    ensures !Before(a, a)
  {}

  // --- the key ---

  function Rotate<T>(s: seq<T>, i: nat): seq<T>
    requires i <= |s|
  {
    s[i..] + s[..i]
  }

  ghost predicate IsRotation<T(!new)>(s: seq<T>, t: seq<T>) {
    exists i: nat :: i <= |s| && t == Rotate(s, i)
  }

  /** `min` over the first `n` rotations; Python keeps the first of equal minima. */
  function LeastRotation(s: seq<Entry>, n: nat): (k: seq<Entry>)
    requires 0 < n <= |s|
  {
    if n == 1 then Rotate(s, 0)
    else
      var best := LeastRotation(s, n - 1);
      if LexLe(EntryLe(), best, Rotate(s, n - 1)) then best else Rotate(s, n - 1)
  }

  /** `canonical`, for a non-empty cycle. */
  function Canonical(s: seq<Entry>): seq<Entry>
    requires s != []
  {
    LeastRotation(s, |s|)
  }

  lemma {:induction false} LeastIsLeast(s: seq<Entry>, n: nat)
    requires 0 < n <= |s|
    ensures exists i: nat :: i < n && LeastRotation(s, n) == Rotate(s, i)
    ensures forall i: nat :: i < n ==> LexLe(EntryLe(), LeastRotation(s, n), Rotate(s, i))
  {
    EntryOrder();
    var last := Rotate(s, n - 1);
    LexTotal(EntryLe(), last, last);
    if n > 1 {
      LeastIsLeast(s, n - 1);
      var best := LeastRotation(s, n - 1);
      LexTotal(EntryLe(), best, last);
      forall i: nat | i < n ensures LexLe(EntryLe(), LeastRotation(s, n), Rotate(s, i)) {
        if i < n - 1 && !LexLe(EntryLe(), best, last) { LexTransitive(EntryLe(), last, best, Rotate(s, i)); }
      }
    }
  }

  // --- rotations ---

  lemma RotateParts<T>(a: seq<T>, b: seq<T>)
    ensures Rotate(a + b, |a|) == b + a
  {
    assert (a + b)[|a|..] == b && (a + b)[..|a|] == a;
  }

  lemma RotateTwice<T>(s: seq<T>, i: nat, j: nat)
    requires i <= |s| && j <= |s|
    ensures Rotate(Rotate(s, i), j) == if i + j <= |s| then Rotate(s, i + j) else Rotate(s, i + j - |s|)
  {
    if i + j <= |s| {
      RotateThrice(s[..i], s[i..i + j], s[i + j..]);
      assert s == s[..i] + s[i..i + j] + s[i + j..];
    } else {
      var k := i + j - |s|;
      RotateAround(s[..k], s[k..i], s[i..]);
      assert s == s[..k] + s[k..i] + s[i..];
    }
  }

  lemma RotateThrice<T>(a: seq<T>, b: seq<T>, c: seq<T>)
    ensures Rotate(Rotate(a + b + c, |a|), |b|) == Rotate(a + b + c, |a| + |b|)
  {
    assert a + b + c == a + (b + c) && (b + c) + a == b + (c + a) && (c + a) + b == c + (a + b);
    RotateParts(a, b + c);
    RotateParts(b, c + a);
    RotateParts(a + b, c);
  }

  lemma RotateAround<T>(a: seq<T>, b: seq<T>, c: seq<T>)
    ensures Rotate(Rotate(a + b + c, |a| + |b|), |c| + |a|) == Rotate(a + b + c, |a|)
  {
    assert c + (a + b) == (c + a) + b && b + (c + a) == (b + c) + a && a + b + c == a + (b + c);
    RotateParts(a + b, c);
    RotateParts(c + a, b);
    RotateParts(a, b + c);
  }

  lemma RotationSymmetric<T(!new)>(s: seq<T>, t: seq<T>)
    requires IsRotation(s, t)
    ensures IsRotation(t, s) && |t| == |s|
  {
    var i: nat :| i <= |s| && t == Rotate(s, i);
    RotateTwice(s, i, |s| - i);
    assert Rotate(s, |s|) == s;
    assert s == Rotate(t, |s| - i);
  }

  lemma RotationTransitive<T(!new)>(s: seq<T>, t: seq<T>, u: seq<T>)
    requires IsRotation(s, t) && IsRotation(t, u)
    ensures IsRotation(s, u)
  {
    RotationSymmetric(s, t);
    var i: nat :| i <= |s| && t == Rotate(s, i);
    var j: nat :| j <= |t| && u == Rotate(t, j);
    RotateTwice(s, i, j);
    var k := if i + j <= |s| then i + j else i + j - |s|;
    assert u == Rotate(s, k);
  }

  /** The key is the least rotation of its cycle. */
  lemma KeyIsLeastRotation(s: seq<Entry>, t: seq<Entry>)
    requires s != []
    ensures IsRotation(s, Canonical(s))
    ensures IsRotation(s, t) ==> LexLe(EntryLe(), Canonical(s), t)
  {
    LeastIsLeast(s, |s|);
    hide LexLe, LeastRotation;
    var i: nat :| i < |s| && Canonical(s) == Rotate(s, i);
    if IsRotation(s, t) {
      var j: nat :| j <= |s| && t == Rotate(s, j);
      FullTurn(s);
      hide Rotate;
      assert t == Rotate(s, if j == |s| then 0 else j);
    }
  }

  lemma FullTurn<T>(s: seq<T>)
    ensures Rotate(s, |s|) == Rotate(s, 0)
  {}

  /** Two cycles get the same key exactly when one is a rotation of the other. */
  lemma KeysMatchRotations(s: seq<Entry>, t: seq<Entry>)
    requires s != [] && t != []
    ensures Canonical(s) == Canonical(t) <==> IsRotation(s, t)
  {
    var ks, kt := Canonical(s), Canonical(t);
    KeyIsLeastRotation(s, kt);
    KeyIsLeastRotation(t, ks);
    hide *;
    if ks == kt {
      RotationSymmetric(t, kt);
      RotationTransitive(s, ks, t);
    }
    if IsRotation(s, t) {
      RotationTransitive(s, t, kt);
      RotationSymmetric(s, t);
      RotationTransitive(t, s, ks);
      EntryOrder();
      LexAntisymmetric(EntryLe(), ks, kt);
    }
  }
}
