/** Shared vocabulary: optional values, and the order in which the sources' ordered maps and
    tuple comparisons rank string identifiers (lexicographic, by code point). */
module Names {

  datatype Option<+T> = None | Some(value: T)

  type byte = n: nat | n < 256

  /** An address by its four octets. */
  datatype Ipv4 = Ipv4(a: byte, b: byte, c: byte, d: byte)

  /** The greatest revision and timestamp. */
  const U64_MAX := 0xFFFF_FFFF_FFFF_FFFF

  /** The greatest number an integer column of the database holds. */
  const I64_MAX := 0x7FFF_FFFF_FFFF_FFFF

  /** Strict lexicographic order on strings. */
  predicate Before(a: string, b: string) {
    b != [] && (a == [] || a[0] < b[0] || (a[0] == b[0] && Before(a[1..], b[1..])))
  }

  lemma {:induction false} BeforeIsStrict(a: string, b: string)
    ensures !(Before(a, b) && Before(b, a))
    ensures !Before(a, a)
  {
    if a != [] {
      BeforeIsStrict(a[1..], if b == [] then [] else b[1..]);
    }
  }

  lemma {:induction false} BeforeIsTotal(a: string, b: string)
    ensures Before(a, b) || Before(b, a) || a == b
  {
    if a != [] && b != [] {
      BeforeIsTotal(a[1..], b[1..]);
      assert a == [a[0]] + a[1..] && b == [b[0]] + b[1..];
    }
  }

  lemma {:induction false} BeforeIsTransitive(a: string, b: string, c: string)
    requires Before(a, b) && Before(b, c)
    ensures Before(a, c)
  {
    if a != [] && a[0] == b[0] == c[0] {
      BeforeIsTransitive(a[1..], b[1..], c[1..]);
    }
  }

  /** The strings agree up to this place, where the first ends or has the smaller character. */
  ghost predicate PartsAt(a: string, b: string, i: nat) {
    i <= |a| && i < |b| && a[..i] == b[..i] && (i == |a| || a[i] < b[i])
  }

  lemma PartsInTail(a: string, b: string, i: nat)
    requires 0 < i && a != [] && b != [] && a[0] == b[0]
    ensures PartsAt(a, b, i) <==> PartsAt(a[1..], b[1..], i - 1)
  {
    if i <= |a| && i <= |b| {
      assert a[..i] == [a[0]] + a[1..][..i-1] && b[..i] == [b[0]] + b[1..][..i-1];
    }
  }

  lemma {:induction false} BeforeIff(a: string, b: string)
    ensures Before(a, b) <==> exists i: nat :: PartsAt(a, b, i)
  {
    if a == [] || b == [] || a[0] != b[0] {
      assert PartsAt(a, b, 0) <==> Before(a, b);
      assert forall i: nat :: PartsAt(a, b, i) && i > 0 ==> a[0] == a[..i][0] == b[..i][0] == b[0];
    } else {
      BeforeIff(a[1..], b[1..]);
      if Before(a, b) {
        var i: nat :| PartsAt(a[1..], b[1..], i);
        PartsInTail(a, b, i + 1);
      }
      if i: nat :| PartsAt(a, b, i) { PartsInTail(a, b, i); }
    }
  }

  predicate IsLeast(s: set<string>, x: string) {
    x in s && forall y :: y in s && y != x ==> Before(x, y)
  }

  lemma {:induction false} LeastExists(s: set<string>)
    requires s != {}
    ensures exists x :: IsLeast(s, x)
  {
    var y :| y in s;
    if s == {y} {
      assert IsLeast(s, y);
    } else {
      LeastExists(s - {y});
      var x :| IsLeast(s - {y}, x);
      BeforeIsTotal(x, y);
      if Before(x, y) {
        assert IsLeast(s, x);
      } else {
        forall z | z in s && z != y ensures Before(y, z) {
          if z != x { BeforeIsTransitive(y, x, z); }
        }
        assert IsLeast(s, y);
      }
    }
  }

  lemma LeastIsUnique(s: set<string>)
    ensures forall x, y :: IsLeast(s, x) && IsLeast(s, y) ==> x == y
  {
    forall x, y | IsLeast(s, x) && IsLeast(s, y) ensures x == y {
      BeforeIsStrict(x, y);
    }
  }

  /** The first key an ordered map with these keys would yield. */
  function Least(s: set<string>): (x: string)
    requires s != {}
    ensures IsLeast(s, x)
  {
    LeastExists(s);
    LeastIsUnique(s);
    var x :| x in s && IsLeast(s, x);
    x
  }
}
