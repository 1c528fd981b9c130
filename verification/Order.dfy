/** The order of string keys, and the walk an ordered map or set makes. */
module Order {

  /** Lexicographic order by code point, the order Rust gives strings. */
  predicate Less(a: string, b: string)
    decreases |b|
  {
    b != [] && (a == [] || a[0] < b[0] || (a[0] == b[0] && Less(a[1..], b[1..])))
  }

  lemma {:induction false} Irreflexive(a: string)
    ensures !Less(a, a)
  {
    if a != [] {
      Irreflexive(a[1..]);
    }
  }

  lemma {:induction false} Trichotomy(a: string, b: string)
    ensures a == b || Less(a, b) || Less(b, a)
    ensures !(Less(a, b) && Less(b, a)) && !Less(a, a)
  {
    Irreflexive(a);
    if a != [] && b != [] {
      Trichotomy(a[1..], b[1..]);
      assert a[0] == b[0] && a[1..] == b[1..] ==> a == [a[0]] + a[1..] == [b[0]] + b[1..] == b;
    }
  }

  lemma {:induction false} Transitive(a: string, b: string, c: string)
    requires Less(a, b) && Less(b, c)
    ensures Less(a, c)
    decreases |c|
  {
    if a != [] && a[0] == b[0] == c[0] {
      Transitive(a[1..], b[1..], c[1..]);
    }
  }

  /** One string is before another when it is a proper prefix of it, or has the lesser
      character where they first differ. */
  lemma {:induction false} LessIsLexicographic(a: string, b: string)
    ensures Less(a, b) <==>
              || a < b
              || exists k :: 0 <= k < |a| && k < |b| && a[..k] == b[..k] && a[k] < b[k]
    decreases |b|
  {
    if a != [] && b != [] && a[0] == b[0] {
      LessIsLexicographic(a[1..], b[1..]);
      assert a == [a[0]] + a[1..] && b == [b[0]] + b[1..];
      if k :| 0 <= k < |a[1..]| && k < |b[1..]| && a[1..][..k] == b[1..][..k] && a[1..][k] < b[1..][k] {
        assert a[..k + 1] == [a[0]] + a[1..][..k] && b[..k + 1] == [b[0]] + b[1..][..k];
      }
      if k :| 0 <= k < |a| && k < |b| && a[..k] == b[..k] && a[k] < b[k] {
        assert k > 0;
        assert a[1..][..k - 1] == a[..k][1..] && b[1..][..k - 1] == b[..k][1..];
      }
    } else if a != [] && b != [] && a[0] < b[0] {
      assert a[..0] == b[..0];
    } else if a != [] && b != [] {
      assert forall k :: 0 < k <= |a| && k <= |b| ==> a[..k][0] == a[0] && b[..k][0] == b[0];
    }
  }

  predicate IsLeast(x: string, ids: set<string>) {
    x in ids && forall y :: y in ids && y != x ==> Less(x, y)
  }

  lemma {:induction false} LeastExists(ids: set<string>) returns (x: string)
    requires ids != {}
    ensures IsLeast(x, ids)
    decreases |ids|
  {
    var y :| y in ids;
    x := y;
    if ids != {y} {
      assert ids - {y} < ids && ids - {y} != {};
      var z := LeastExists(ids - {y});
      Trichotomy(y, z);
      x := if Less(y, z) then y else z;
      forall w | w in ids && w != x ensures Less(x, w) {
        if w != y && x == y && w != z {
          Transitive(y, z, w);
        }
      }
    }
  }

  lemma LeastIsUnique(x: string, y: string, ids: set<string>)
    requires IsLeast(x, ids) && IsLeast(y, ids)
    ensures x == y
  {
    Trichotomy(x, y);
  }

  predicate Ascending(s: seq<string>) {
    forall i, j :: 0 <= i < j < |s| ==> Less(s[i], s[j])
  }

  /** The keys in the order an ordered map is walked. */
  function Sorted(ids: set<string>): (s: seq<string>)
    ensures Ascending(s)
    ensures forall id :: id in s <==> id in ids
    decreases |ids|
  {
    if ids == {} then []
    else
      assert exists x :: IsLeast(x, ids) by { var x := LeastExists(ids); }
      assert forall x, y :: IsLeast(x, ids) && IsLeast(y, ids) ==> x == y by {
        forall x, y | IsLeast(x, ids) && IsLeast(y, ids) ensures x == y { LeastIsUnique(x, y, ids); }
      }
      var x :| IsLeast(x, ids);
      var rest := Sorted(ids - {x});
      assert forall id :: id in [x] + rest <==> id == x || id in rest;
      assert forall id :: id in rest ==> Less(x, id);
      [x] + rest
  }

  /** An ascending list is determined by its elements. */
  lemma {:induction false} AscendingIsSorted(s: seq<string>, ids: set<string>)
    requires Ascending(s) && forall id :: id in s <==> id in ids
    ensures s == Sorted(ids)
    decreases |s|
  {
    if s == [] {
      assert ids == {};
    } else {
      assert s[0] in ids;
      assert IsLeast(s[0], ids);
      var x := Sorted(ids)[0];
      assert IsLeast(x, ids);
      LeastIsUnique(s[0], x, ids);
      forall id ensures id in s[1..] <==> id in ids - {x} {
        if id in s[1..] { Trichotomy(x, id); }
        assert id in s <==> id == s[0] || id in s[1..];
      }
      AscendingIsSorted(s[1..], ids - {x});
      assert s == [x] + s[1..];
    }
  }
}
