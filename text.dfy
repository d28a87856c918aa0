/** String matching and ordering as the database applies them to text columns:
    the SQL `LIKE` operator (with PostgreSQL's default escape character) and the
    lexicographic order used by `ORDER BY name`. */
module Text {

  /** `s LIKE p`: `%` matches any run of characters, `_` any one character,
      and a backslash makes the next pattern character literal. */
  predicate Like(s: string, p: string)
    decreases |s| + |p|
  {
    if p == [] then s == []
    else if p[0] == '%' then Like(s, p[1..]) || (s != [] && Like(s[1..], p))
    else if p[0] == '\\' && |p| >= 2 then s != [] && s[0] == p[1] && Like(s[1..], p[2..])
    else s != [] && (p[0] == '_' || s[0] == p[0]) && Like(s[1..], p[1..])
  }

  /** The pattern the repositories bind for a keyword search: `"%" + keyword + "%"`. */
  function SearchPattern(keyword: string): (p: string)
    ensures |p| == |keyword| + 2 && p[0] == '%' && p[|p| - 1] == '%'
  {
    "%" + keyword + "%"
  }

  /** The keyword holds no character that `LIKE` treats specially. */
  predicate NoWildcards(k: string)
  {
    forall i :: 0 <= i < |k| ==> k[i] != '%' && k[i] != '_' && k[i] != '\\'
  }

  /** `k` occurs as a contiguous piece of `s`. */
  predicate Contains(s: string, k: string)
  {
    exists i :: 0 <= i <= |s| && k <= s[i..]
  }

  lemma {:induction false} LikeAnything(s: string)
    ensures Like(s, "%")
    decreases |s|
  {
    assert "%"[1..] == [];
    if s != [] {
      LikeAnything(s[1..]);
    }
  }

  /** For a wildcard-free `k`, the pattern `k%` matches exactly the strings
      that start with `k`. */
  lemma {:induction false} LikePrefix(s: string, k: string)
    requires NoWildcards(k)
    ensures Like(s, k + "%") <==> k <= s
    decreases |k|
  {
    var p := k + "%";
    if k == [] {
      assert p == "%";
      LikeAnything(s);
    } else {
      assert p[0] == k[0] && p[1..] == k[1..] + "%";
      assert NoWildcards(k[1..]) by {
        forall i | 0 <= i < |k[1..]| ensures k[1..][i] == k[i + 1] { }
      }
      if s != [] {
        LikePrefix(s[1..], k[1..]);
        assert s == [s[0]] + s[1..];
        assert k == [k[0]] + k[1..];
      }
    }
  }

  /** A leading `%` lets the rest of the pattern match at any position. */
  lemma {:induction false} LikeInfix(s: string, q: string)
    ensures Like(s, "%" + q) <==> exists i :: 0 <= i <= |s| && Like(s[i..], q)
    decreases |s|
  {
    var p := "%" + q;
    assert p[0] == '%' && p[1..] == q;
    assert s[0..] == s;
    if s != [] {
      LikeInfix(s[1..], q);
      forall i | 0 <= i <= |s| - 1 ensures s[1..][i..] == s[i + 1..] { }
      if exists i :: 0 <= i <= |s| && Like(s[i..], q) {
        var i :| 0 <= i <= |s| && Like(s[i..], q);
        if i > 0 {
          assert s[1..][i - 1..] == s[i..];
        }
      }
    }
  }

  /** The keyword search of the repositories is substring containment as long
      as the keyword holds no `LIKE` wildcard or escape character. */
  lemma LikeMatchesSubstring(s: string, k: string)
    requires NoWildcards(k)
    ensures Like(s, SearchPattern(k)) <==> Contains(s, k)
  {
    var q := k + "%";
    assert SearchPattern(k) == "%" + q;
    LikeInfix(s, q);
    forall i | 0 <= i <= |s| ensures Like(s[i..], q) <==> k <= s[i..] {
      LikePrefix(s[i..], k);
    }
  }

  /** Lexicographic order on character codes: the order `ORDER BY name ASC`
      produces under a byte-wise collation. */
  predicate NameLeq(a: string, b: string)
  {
    a == [] || (b != [] && (a[0] < b[0] || (a[0] == b[0] && NameLeq(a[1..], b[1..]))))
  }

  lemma {:induction false} NameLeqTotal(a: string, b: string)
    ensures NameLeq(a, b) || NameLeq(b, a)
    decreases |a|
  {
    if a != [] && b != [] && a[0] == b[0] {
      NameLeqTotal(a[1..], b[1..]);
    }
  }

  lemma {:induction false} NameLeqTransitive(a: string, b: string, c: string)
    requires NameLeq(a, b) && NameLeq(b, c)
    ensures NameLeq(a, c)
    decreases |a|
  {
    if a != [] && b != [] && c != [] && a[0] == b[0] && b[0] == c[0] {
      NameLeqTransitive(a[1..], b[1..], c[1..]);
    }
  }
}
