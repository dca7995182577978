/**
  Keys of both tree maps. The keys the maps are built with are Python `str`
  values compared with `<` and `>`, which order strings lexicographically by
  code point, a proper prefix coming first. `Less` writes that comparison out;
  the lemmas below show it is a strict total order, which is all the trees
  rely on.
*/
module KeyOrder {

  type Key = string

  /** Python's `a < b` on strings: no string is below itself. */
  predicate Less(a: Key, b: Key)
    ensures Less(a, b) ==> a != b
  {
    if |a| == 0 then |b| > 0
    else if |b| == 0 then false
    else if a[0] != b[0] then a[0] < b[0]
    else Less(a[1..], b[1..])
  }

  /** The textbook definition of lexicographic order: `a` is a proper
      prefix of `b`, or at the first position where they differ `a` has the
      smaller code point. */
  ghost predicate LexBelow(a: Key, b: Key)
  {
    || (|a| < |b| && a == b[..|a|])
    || exists i :: 0 <= i < |a| && i < |b| && a[..i] == b[..i] && a[i] < b[i]
  }

  /** `Less` is exactly lexicographic order. */
  lemma {:induction false} LessIsLexicographic(a: Key, b: Key)
    ensures Less(a, b) <==> LexBelow(a, b)
  {
    if |a| > 0 && |b| > 0 {
      if a[0] != b[0] {
        if Less(a, b) {
          assert a[..0] == b[..0];
        }
        if LexBelow(a, b) {
          assert !(|a| < |b| && a == b[..|a|]);
        }
      } else {
        var a', b' := a[1..], b[1..];
        LessIsLexicographic(a', b');
        assert a == [a[0]] + a' && b == [b[0]] + b';
        assert (|a| < |b| && a == b[..|a|]) <==> (|a'| < |b'| && a' == b'[..|a'|]) by {
          if |a| < |b| {
            assert b[..|a|] == [b[0]] + b'[..|a'|];
          }
        }
        if LexBelow(a', b') && !(|a'| < |b'| && a' == b'[..|a'|]) {
          var i :| 0 <= i < |a'| && i < |b'| && a'[..i] == b'[..i] && a'[i] < b'[i];
          assert a[..i + 1] == [a[0]] + a'[..i] && b[..i + 1] == [b[0]] + b'[..i];
          assert a[i + 1] < b[i + 1];
        }
        if LexBelow(a, b) && !(|a| < |b| && a == b[..|a|]) {
          var i :| 0 <= i < |a| && i < |b| && a[..i] == b[..i] && a[i] < b[i];
          assert i > 0;
          assert a'[..i - 1] == a[1..i] && b'[..i - 1] == b[1..i];
          assert a[1..i] == a[..i][1..] && b[1..i] == b[..i][1..];
          assert a'[i - 1] < b'[i - 1];
        }
      }
    }
  }

  lemma {:induction false} LessAsymmetric(a: Key, b: Key)
    requires Less(a, b)
    ensures !Less(b, a)
  {
    if |a| > 0 && |b| > 0 && a[0] == b[0] {
      LessAsymmetric(a[1..], b[1..]);
    }
  }

  lemma {:induction false} LessTransitive(a: Key, b: Key, c: Key)
    requires Less(a, b) && Less(b, c)
    ensures Less(a, c)
  {
    if |a| > 0 && |b| > 0 && |c| > 0 && a[0] == b[0] && b[0] == c[0] {
      LessTransitive(a[1..], b[1..], c[1..]);
    }
  }

  /** Two keys that are neither `<` nor `>` each other are equal: the
      final `else` of every descent in the trees is the equal-key case. */
  lemma {:induction false} LessTrichotomous(a: Key, b: Key)
    ensures a == b || Less(a, b) || Less(b, a)
  {
    if |a| > 0 && |b| > 0 && a[0] == b[0] {
      LessTrichotomous(a[1..], b[1..]);
      if a[1..] == b[1..] {
        assert a == [a[0]] + a[1..] && b == [b[0]] + b[1..];
      }
    }
  }
}
