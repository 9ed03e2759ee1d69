/** The order in which a std::map with string keys is traversed. */
module Keys {
  import opened Common

  /** std::string's operator<. */
  predicate Less(a: Str, b: Str) {
    b != [] && (a == [] || a[0] < b[0] || (a[0] == b[0] && Less(a[1..], b[1..])))
  }

  /** The strings agree on their first k octets, and there a ends or has the smaller octet. */
  predicate FirstDiffers(a: Str, b: Str, k: int) {
    0 <= k <= |a| && k < |b| && a[..k] == b[..k] && (k < |a| ==> a[k] < b[k])
  }

  lemma HeadsAgree(a: Str, b: Str, k: int)
    requires FirstDiffers(a, b, k)
    ensures k > 0 ==> a[0] == b[0]
  {
    if k > 0 {
      assert a[..k][0] == b[..k][0];
    }
  }

  lemma {:induction false} LessIsLexicographic(a: Str, b: Str)
    ensures Less(a, b) <==> exists k :: FirstDiffers(a, b, k)
    decreases |a|
  {
    if a != [] && b != [] && a[0] == b[0] {
      LessIsLexicographic(a[1..], b[1..]);
      if Less(a, b) {
        var k :| FirstDiffers(a[1..], b[1..], k);
        assert a[..k + 1] == [a[0]] + a[1..][..k] && b[..k + 1] == [b[0]] + b[1..][..k];
        assert FirstDiffers(a, b, k + 1);
      }
      if k :| FirstDiffers(a, b, k) {
        assert a[1..][..k - 1] == a[..k][1..] == b[..k][1..] == b[1..][..k - 1];
        assert FirstDiffers(a[1..], b[1..], k - 1);
      }
    } else if Less(a, b) {
      assert FirstDiffers(a, b, 0);
    } else if k :| FirstDiffers(a, b, k) {
      HeadsAgree(a, b, k);
    }
  }

  lemma {:induction false} LessIsTransitive(a: Str, b: Str, c: Str)
    requires Less(a, b) && Less(b, c)
    ensures Less(a, c)
    decreases |a|
  {
    if a != [] && a[0] == b[0] && b[0] == c[0] {
      LessIsTransitive(a[1..], b[1..], c[1..]);
    }
  }

  lemma {:induction false} LessIsTotal(a: Str, b: Str)
    ensures a == b || Less(a, b) || Less(b, a)
    decreases |a|
  {
    if a != [] && b != [] && a[0] == b[0] {
      LessIsTotal(a[1..], b[1..]);
      assert a == [a[0]] + a[1..] && b == [b[0]] + b[1..];
    }
  }

  lemma {:induction false} LessIsIrreflexive(a: Str)
    ensures !Less(a, a)
    decreases |a|
  {
    if a != [] {
      LessIsIrreflexive(a[1..]);
    }
  }

  predicate IsLeast(k: Str, s: set<Str>) {
    k in s && forall x :: x in s && x != k ==> Less(k, x)
  }

  lemma {:induction false} LeastExists(s: set<Str>)
    requires s != {}
    ensures exists k :: IsLeast(k, s)
    decreases |s|
  {
    var k :| k in s;
    var rest := s - {k};
    if rest == {} {
      assert s == {k};
      assert IsLeast(k, s);
    } else {
      LeastExists(rest);
      var least :| IsLeast(least, rest);
      LessIsTotal(k, least);
      if Less(least, k) {
        assert IsLeast(least, s);
      } else {
        forall x | x in s && x != k
          ensures Less(k, x)
        {
          if x != least {
            LessIsTransitive(k, least, x);
          }
        }
        assert IsLeast(k, s);
      }
    }
  }

  lemma LeastIsUnique(s: set<Str>, j: Str, k: Str)
    requires IsLeast(j, s) && IsLeast(k, s)
    ensures j == k
  {
    if j != k {
      LessIsTransitive(j, k, j);
      LessIsIrreflexive(j);
    }
  }

  function Least(s: set<Str>): (k: Str)
    requires s != {}
    ensures IsLeast(k, s)
  {
    LeastExists(s);
    assert forall j, k :: IsLeast(j, s) && IsLeast(k, s) ==> j == k by {
      forall j, k | IsLeast(j, s) && IsLeast(k, s)
        ensures j == k
      {
        LeastIsUnique(s, j, k);
      }
    }
    var k :| IsLeast(k, s);
    k
  }

  ghost predicate Ascends(ks: seq<Str>) {
    forall i, j :: 0 <= i < j < |ks| ==> Less(ks[i], ks[j])
  }

  /** The keys of a map in the order of its iterator. */
  function Ascending(s: set<Str>): (ks: seq<Str>)
    ensures forall k :: k in ks <==> k in s
    ensures |ks| == |s|
    decreases |s|
  {
    if s == {} then [] else [Least(s)] + Ascending(s - {Least(s)})
  }

  lemma LeastFirst(s: set<Str>, least: Str, rest: seq<Str>)
    requires IsLeast(least, s) && Ascends(rest) && forall k :: k in rest ==> k in s - {least}
    ensures Ascends([least] + rest)
  {
    hide Less;
    assert forall j :: 0 <= j < |rest| ==> rest[j] in rest;
  }

  lemma {:induction false} AscendingAscends(s: set<Str>)
    ensures Ascends(Ascending(s))
    decreases |s|
  {
    if s != {} {
      hide Less, Ascends;
      AscendingAscends(s - {Least(s)});
      LeastFirst(s, Least(s), Ascending(s - {Least(s)}));
    }
  }

  lemma AscendingHasNoRepeats(s: set<Str>)
    ensures var ks := Ascending(s); forall i, j :: 0 <= i < j < |ks| ==> ks[i] != ks[j]
  {
    hide Less;
    var ks := Ascending(s);
    AscendingAscends(s);
    forall i, j | 0 <= i < j < |ks|
      ensures ks[i] != ks[j]
    {
      LessIsIrreflexive(ks[i]);
    }
  }

  /** The keys a loop over the map visits. */
  function InOrder(s: set<Str>): (ks: seq<Str>)
    ensures ks == Ascending(s)
    ensures forall k :: k in ks <==> k in s
    ensures forall i, j :: 0 <= i < j < |ks| ==> ks[i] != ks[j]
  {
    AscendingHasNoRepeats(s);
    Ascending(s)
  }
}
