/**
 SQLite's `LIKE` operator as the catalogue search uses it: `x LIKE '%q%'`
 with no `ESCAPE` clause. `%` matches any run of characters, `_` exactly one,
 and any other character matches itself with ASCII letters compared without
 regard to case (SQLite's default; other letters are compared exactly).
 */
module SqlLike {
  import opened Text

  predicate SameFolded(a: char, b: char) {
    LowerChar(a) == LowerChar(b)
  }

  /** `s LIKE p`. */
  predicate Like(p: string, s: string)
    decreases |p| + |s|
  {
    if |p| == 0 then |s| == 0
    else if p[0] == '%' then Like(p[1..], s) || (|s| > 0 && Like(p, s[1..]))
    else |s| > 0 && (p[0] == '_' || SameFolded(p[0], s[0])) && Like(p[1..], s[1..])
  }

  /** A search term without wildcards. */
  predicate Literal(q: string) {
    '%' !in q && '_' !in q
  }

  /** `q` occurs in `s` at position `i`, ASCII case ignored. */
  predicate FoldedAt(q: string, s: string, i: int) {
    0 <= i && i + |q| <= |s| && forall k :: 0 <= k < |q| ==> SameFolded(q[k], s[i + k])
  }

  /** `%` alone matches everything. */
  lemma {:induction false} PercentMatchesAll(s: string)
    ensures Like("%", s)
    decreases |s|
  {
    assert "%"[1..] == "";
    if |s| > 0 {
      PercentMatchesAll(s[1..]);
    }
  }

  /** A literal followed by `%` matches exactly the texts it begins, case aside. */
  lemma {:induction false} LiteralPrefix(q: string, t: string)
    requires Literal(q)
    ensures Like(q + "%", t) <==> FoldedAt(q, t, 0)
    decreases |q|
  {
    if |q| == 0 {
      assert q + "%" == "%";
      PercentMatchesAll(t);
    } else {
      var p := q + "%";
      assert p[0] == q[0] && p[1..] == q[1..] + "%";
      assert Literal(q[1..]) by {
        assert forall c :: c in q[1..] ==> c in q;
      }
      if |t| > 0 {
        LiteralPrefix(q[1..], t[1..]);
        if FoldedAt(q[1..], t[1..], 0) && SameFolded(q[0], t[0]) {
          assert forall k :: 1 <= k < |q| ==> q[k] == q[1..][k - 1] && t[k] == t[1..][k - 1];
        }
        if FoldedAt(q, t, 0) {
          assert SameFolded(q[0], t[0]);
          assert forall k :: 0 <= k < |q| - 1 ==> q[1..][k] == q[k + 1] && t[1..][k] == t[k + 1];
        }
      }
    }
  }

  /** A leading `%` lets the rest of the pattern match any suffix. */
  lemma {:induction false} LeadingPercent(r: string, s: string)
    ensures Like("%" + r, s) <==> exists i :: 0 <= i <= |s| && Like(r, s[i..])
    decreases |s|
  {
    var p := "%" + r;
    assert p[0] == '%' && p[1..] == r;
    assert s[0..] == s;
    if |s| > 0 {
      LeadingPercent(r, s[1..]);
      assert forall i :: 0 <= i <= |s| - 1 ==> s[1..][i..] == s[i + 1..];
      if exists i :: 0 <= i <= |s| && Like(r, s[i..]) {
        var i :| 0 <= i <= |s| && Like(r, s[i..]);
        if i > 0 {
          assert Like(r, s[1..][i - 1..]);
        }
      }
    }
  }

  /** `x LIKE '%q%'` for a literal `q`: `q` occurs somewhere in `x`, ignoring ASCII case. */
  lemma ContainsPattern(q: string, s: string)
    requires Literal(q)
    ensures Like("%" + q + "%", s) <==> exists i :: FoldedAt(q, s, i)
  {
    assert "%" + q + "%" == "%" + (q + "%");
    LeadingPercent(q + "%", s);
    forall i | 0 <= i <= |s|
      ensures Like(q + "%", s[i..]) <==> FoldedAt(q, s, i)
    {
      LiteralPrefix(q, s[i..]);
      assert forall k :: 0 <= k < |q| && i + k < |s| ==> s[i..][k] == s[i + k];
    }
    if exists i :: FoldedAt(q, s, i) {
      var i :| FoldedAt(q, s, i);
      assert Like(q + "%", s[i..]);
    }
  }

  /** `_` stands for any one character: `%_%` matches exactly the non-empty texts. */
  lemma UnderscoreMatchesAnyCharacter(s: string)
    ensures Like("%_%", s) <==> |s| > 0
  {
    assert "%_%" == "%" + "_%";
    LeadingPercent("_%", s);
    if |s| > 0 {
      assert "_%"[1..] == "%";
      PercentMatchesAll(s[1..]);
      assert Like("_%", s[0..]);
    }
  }
}
