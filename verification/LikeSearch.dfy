/**
 * Text search in the stores: an escaped term inside an SQL LIKE pattern
 * (src/store/sqlite/stores.ts, src/store/postgres/stores.ts) against literal substring search.
 */
module LikeSearch {
  import opened Wrappers
  import Text

  const ESC := '\\'

  predicate IsMeta(c: char) {
    c == '%' || c == '_' || c == ESC
  }

  /** `likeEscape`: a backslash before every metacharacter. */
  function LikeEscape(q: string): string {
    if q == "" then ""
    else if IsMeta(q[0]) then [ESC, q[0]] + LikeEscape(q[1..])
    else [q[0]] + LikeEscape(q[1..])
  }

  /** When two characters are equal to a comparison: the collation in use. */
  type Collation = (char, char) -> bool

  /**
   * The LIKE predicate with ESCAPE `\`, section 8.5 of ISO/IEC 9075-2. A pattern that ends in a lone
   * escape matches nothing.
   */
  predicate Like(p: string, s: string, same: Collation)
    decreases |p| + |s|
  {
    if p == "" then s == ""
    else if p[0] == '%' then Like(p[1..], s, same) || (s != "" && Like(p, s[1..], same))
    else if s == "" then false
    else if p[0] == '_' then Like(p[1..], s[1..], same)
    else if p[0] == ESC then |p| > 1 && same(p[1], s[0]) && Like(p[2..], s[1..], same)
    else same(p[0], s[0]) && Like(p[1..], s[1..], same)
  }

  function Pattern(q: string): string {
    "%" + LikeEscape(q) + "%"
  }

  // ---- The simple meaning ----------------------------------------------------------------------------

  predicate OccursAt(q: string, s: string, i: int, same: Collation) {
    0 <= i <= |s| - |q| && forall k :: 0 <= k < |q| ==> same(q[k], s[i + k])
  }

  ghost predicate Occurs(q: string, s: string, same: Collation) {
    exists i :: OccursAt(q, s, i, same)
  }

  // ---- LIKE on the pieces of a pattern ---------------------------------------------------------------

  lemma {:induction false} PercentMatchesAll(s: string, same: Collation)
    ensures Like("%", s, same)
  {
    if s == "" {
      assert Like("%"[1..], "", same);
    } else {
      PercentMatchesAll(s[1..], same);
    }
  }

  lemma {:induction false} PercentSkips(p: string, s: string, same: Collation)
    ensures Like("%" + p, s, same) <==> exists i: nat :: i <= |s| && Like(p, s[i..], same)
  {
    assert ("%" + p)[1..] == p && s[0..] == s;
    if s == "" {
      assert forall i: nat :: i <= |s| ==> s[i..] == s;
    } else {
      PercentSkips(p, s[1..], same);
      assert forall i: nat :: i < |s| ==> s[1..][i..] == s[i + 1..];
      if i: nat :| i <= |s| && Like(p, s[i..], same) && i > 0 {
        assert s[1..][i - 1..] == s[i..];
      }
    }
  }

  /** An escaped term consumes exactly itself. */
  lemma {:induction false} EscapedIsLiteral(q: string, rest: string, s: string, same: Collation)
    ensures Like(LikeEscape(q) + rest, s, same) <==>
            OccursAt(q, s, 0, same) && Like(rest, s[|q|..], same)
  {
    if q == "" {
      assert LikeEscape(q) + rest == rest && s[0..] == s;
    } else if s != "" {
      EscapedHead(q, rest, s, same);
      EscapedIsLiteral(q[1..], rest, s[1..], same);
      OccursAtHead(q, s, same);
      if |q| <= |s| {
        assert s[1..][|q| - 1..] == s[|q|..];
      }
    }
  }

  lemma EscapedHead(q: string, rest: string, s: string, same: Collation)
    requires q != "" && s != ""
    ensures Like(LikeEscape(q) + rest, s, same) <==>
            same(q[0], s[0]) && Like(LikeEscape(q[1..]) + rest, s[1..], same)
  {
    var p := LikeEscape(q[1..]) + rest;
    if IsMeta(q[0]) {
      LikeEscaped(q[0], p, s, same);
      assert LikeEscape(q) + rest == [ESC, q[0]] + p;
    } else {
      LikePlain(q[0], p, s, same);
      assert LikeEscape(q) + rest == [q[0]] + p;
    }
  }

  lemma LikeEscaped(c: char, p: string, s: string, same: Collation)
    requires s != ""
    ensures Like([ESC, c] + p, s, same) <==> same(c, s[0]) && Like(p, s[1..], same)
  {
    assert ([ESC, c] + p)[2..] == p;
  }

  lemma LikePlain(c: char, p: string, s: string, same: Collation)
    requires !IsMeta(c) && s != ""
    ensures Like([c] + p, s, same) <==> same(c, s[0]) && Like(p, s[1..], same)
  {
    assert ([c] + p)[1..] == p;
  }

  lemma OccursAtHead(q: string, s: string, same: Collation)
    requires q != "" && s != ""
    ensures OccursAt(q, s, 0, same) <==> same(q[0], s[0]) && OccursAt(q[1..], s[1..], 0, same)
  {
    if same(q[0], s[0]) && OccursAt(q[1..], s[1..], 0, same) {
      forall k | 0 <= k < |q| ensures same(q[k], s[k]) {
        if k > 0 {
          assert same(q[1..][k - 1], s[1..][k - 1]);
        }
      }
    }
  }

  lemma OccursAtTail(q: string, s: string, i: nat, same: Collation)
    requires i <= |s|
    ensures OccursAt(q, s, i, same) <==> OccursAt(q, s[i..], 0, same)
  {
    if OccursAt(q, s[i..], 0, same) {
      forall k | 0 <= k < |q| ensures same(q[k], s[i + k]) {
        assert same(q[k], s[i..][k]);
      }
    }
  }

  // ---- Search means substring ------------------------------------------------------------------------

  /** The pattern built from a term matches a value exactly when the term occurs in it, as written. */
  lemma SearchIsSubstring(q: string, s: string, same: Collation)
    ensures Like(Pattern(q), s, same) <==> Occurs(q, s, same)
  {
    var p := LikeEscape(q) + "%";
    assert Pattern(q) == "%" + p;
    PercentSkips(p, s, same);
    forall i: nat | i <= |s| ensures Like(p, s[i..], same) <==> OccursAt(q, s, i, same) {
      EscapedIsLiteral(q, "%", s[i..], same);
      OccursAtTail(q, s, i, same);
      if OccursAt(q, s[i..], 0, same) {
        PercentMatchesAll(s[i..][|q|..], same);
      }
    }
  }

  /** The stand-in for a term that its unescaped pattern accepts. */
  function Decoy(q: string): string {
    if q == "" then ""
    else if q[0] == '%' then Decoy(q[1..])
    else if q[0] == '_' then "x" + Decoy(q[1..])
    else if q[0] == ESC then if |q| == 1 then "%" else [q[1]] + Decoy(q[2..])
    else [q[0]] + Decoy(q[1..])
  }

  ghost predicate HasMeta(q: string) {
    exists i :: 0 <= i < |q| && IsMeta(q[i])
  }

  function Exact(): Collation {
    (a, b) => a == b
  }

  /** A comparison under which a metacharacter equals itself only. */
  ghost predicate KeepsMeta(same: Collation) {
    && (forall c :: same(c, c))
    && (forall c, d :: same(c, d) && (IsMeta(c) || IsMeta(d)) ==> c == d)
  }

  lemma CaseFoldingKeepsMeta()
    ensures KeepsMeta(UpToCase(Text.LowerChar)) && KeepsMeta(Exact())
  {
    forall c, d | Text.LowerChar(c) == Text.LowerChar(d) && (IsMeta(c) || IsMeta(d)) ensures c == d {
      LoweredMeta(c);
      LoweredMeta(d);
    }
  }

  lemma LoweredMeta(c: char)
    ensures IsMeta(c) ==> Text.LowerChar(c) == c
    ensures IsMeta(Text.LowerChar(c)) ==> Text.LowerChar(c) == c
  {
  }

  lemma {:induction false} DecoyIsAccepted(q: string, same: Collation)
    requires KeepsMeta(same)
    ensures Like(q + "%", Decoy(q), same)
    ensures |Decoy(q)| <= |q|
  {
    if q == "" {
      PercentMatchesAll("", same);
    } else if q[0] == ESC && |q| > 1 {
      assert (q + "%")[2..] == q[2..] + "%";
      DecoyIsAccepted(q[2..], same);
    } else if q == [ESC] {
      assert (q + "%")[2..] == "";
      assert q + "%" == [ESC, '%'];
      assert Like("", "", same);
    } else {
      assert (q + "%")[1..] == q[1..] + "%";
      DecoyIsAccepted(q[1..], same);
    }
  }

  /** A decoy is shorter than its term, or differs from it at every metacharacter. */
  lemma {:induction false} DecoyDiffers(q: string)
    ensures |Decoy(q)| <= |q|
    ensures |Decoy(q)| == |q| ==> forall i :: 0 <= i < |q| && IsMeta(q[i]) ==> Decoy(q)[i] != q[i]
  {
    if q == "" {
    } else if q[0] == ESC && |q| > 1 {
      DecoyDiffers(q[2..]);
    } else if q != [ESC] {
      DecoyDiffers(q[1..]);
      if |Decoy(q)| == |q| {
        assert Decoy(q)[1..] == Decoy(q[1..]);
        assert forall i :: 0 < i < |q| ==> q[1..][i - 1] == q[i] && Decoy(q)[1..][i - 1] == Decoy(q)[i];
      }
    }
  }

  /**
   * Escaping matters for exactly the terms with a metacharacter: only the others can be used as they are,
   * under exact comparison, up to case, and under every comparison that keeps the metacharacters apart.
   */
  lemma EscapingIsNeededExactlyForMeta(q: string, same: Collation)
    requires KeepsMeta(same)
    ensures (forall s :: Like("%" + q + "%", s, same) <==> Occurs(q, s, same)) <==> !HasMeta(q)
  {
    if HasMeta(q) {
      var s := Decoy(q);
      DecoyIsAccepted(q, same);
      DecoyDiffers(q);
      assert "%" + q + "%" == "%" + (q + "%") && s[0..] == s;
      PercentSkips(q + "%", s, same);
      forall i ensures !OccursAt(q, s, i, same) {
        var m :| 0 <= m < |q| && IsMeta(q[m]);
        assert i == 0 && |s| == |q| ==> !same(q[m], s[i + m]);
      }
      assert Like("%" + q + "%", s, same) && !Occurs(q, s, same);
    } else {
      PlainIsItsOwnEscape(q);
      forall s ensures Like("%" + q + "%", s, same) <==> Occurs(q, s, same) {
        SearchIsSubstring(q, s, same);
      }
    }
  }

  lemma {:induction false} PlainIsItsOwnEscape(q: string)
    requires !HasMeta(q)
    ensures LikeEscape(q) == q
  {
    if q != "" {
      assert !IsMeta(q[0]);
      assert forall i :: 0 <= i < |q| - 1 ==> q[1..][i] == q[i + 1];
      PlainIsItsOwnEscape(q[1..]);
    }
  }

  // ---- The two stores --------------------------------------------------------------------------------

  /** A `lower()` that leaves the metacharacters alone and makes none. */
  ghost predicate FoldSafe(fold: char -> char) {
    && (forall c :: IsMeta(c) ==> fold(c) == c)
    && (forall c :: IsMeta(fold(c)) ==> IsMeta(c))
  }

  function Folded(s: string, fold: char -> char): (t: string)
    ensures |t| == |s| && forall i :: 0 <= i < |s| ==> t[i] == fold(s[i])
  {
    seq(|s|, i requires 0 <= i < |s| => fold(s[i]))
  }

  function UpToCase(fold: char -> char): Collation {
    (a, b) => fold(a) == fold(b)
  }

  /** SQLite folds ASCII letters inside LIKE. */
  predicate SqliteMatches(q: string, s: string) {
    Like(Pattern(q), s, UpToCase(Text.LowerChar))
  }

  /** Postgres compares `lower(column)` with `lower(pattern)`. */
  predicate PostgresMatches(q: string, s: string, lower: char -> char) {
    Like(Folded(Pattern(q), lower), Folded(s, lower), Exact())
  }

  lemma {:induction false} FoldedEscape(q: string, fold: char -> char)
    requires FoldSafe(fold)
    ensures Folded(LikeEscape(q), fold) == LikeEscape(Folded(q, fold))
  {
    if q != "" {
      FoldedEscape(q[1..], fold);
      assert Folded(q, fold)[1..] == Folded(q[1..], fold);
      assert IsMeta(q[0]) <==> IsMeta(fold(q[0]));
      assert IsMeta(ESC);
    }
  }

  /** Lowering the whole pattern leaves its escapes meaningful: Postgres too searches for a substring. */
  lemma PostgresSearchIsSubstring(q: string, s: string, lower: char -> char)
    requires FoldSafe(lower)
    ensures PostgresMatches(q, s, lower) <==> Occurs(q, s, UpToCase(lower))
  {
    FoldedEscape(q, lower);
    assert IsMeta('%');
    assert Folded(Pattern(q), lower) == Pattern(Folded(q, lower));
    SearchIsSubstring(Folded(q, lower), Folded(s, lower), Exact());
    forall i ensures OccursAt(q, s, i, UpToCase(lower)) <==>
                     OccursAt(Folded(q, lower), Folded(s, lower), i, Exact()) {
      if 0 <= i <= |s| - |q| {
        assert forall k :: 0 <= k < |q| ==>
                 (UpToCase(lower)(q[k], s[i + k]) <==>
                  Exact()(Folded(q, lower)[k], Folded(s, lower)[i + k]));
      }
    }
  }

  /** The two stores answer every search alike exactly when `lower` identifies the letters ASCII folding does. */
  lemma StoresAgreeExactlyWhenFoldsDo(lower: char -> char)
    requires FoldSafe(lower)
    ensures (forall q, s :: SqliteMatches(q, s) <==> PostgresMatches(q, s, lower)) <==>
            (forall a, b :: UpToCase(lower)(a, b) <==> UpToCase(Text.LowerChar)(a, b))
  {
    var ascii := Text.LowerChar;
    forall q, s
      ensures SqliteMatches(q, s) <==> Occurs(q, s, UpToCase(ascii))
      ensures PostgresMatches(q, s, lower) <==> Occurs(q, s, UpToCase(lower))
    {
      SearchIsSubstring(q, s, UpToCase(ascii));
      PostgresSearchIsSubstring(q, s, lower);
    }
    if forall q, s :: SqliteMatches(q, s) <==> PostgresMatches(q, s, lower) {
      forall a, b ensures UpToCase(lower)(a, b) <==> UpToCase(ascii)(a, b) {
        OneCharSearch(a, b, UpToCase(ascii));
        OneCharSearch(a, b, UpToCase(lower));
        assert SqliteMatches([a], [b]) <==> PostgresMatches([a], [b], lower);
      }
    } else if forall a, b :: UpToCase(lower)(a, b) <==> UpToCase(ascii)(a, b) {
      forall q, s ensures SqliteMatches(q, s) <==> PostgresMatches(q, s, lower) {
        assert forall i :: OccursAt(q, s, i, UpToCase(lower)) <==> OccursAt(q, s, i, UpToCase(ascii));
      }
    }
  }

  lemma OneCharSearch(a: char, b: char, same: Collation)
    ensures Occurs([a], [b], same) <==> same(a, b)
  {
    assert OccursAt([a], [b], 0, same) <==> same([a][0], [b][0]);
    assert forall i :: OccursAt([a], [b], i, same) ==> i == 0;
  }

  // ---- The installations list ------------------------------------------------------------------------

  datatype Install = Install(id: string, status: string, domain: Option<string>, name: Option<string>)

  /** LIKE on NULL is unknown, which a WHERE clause drops. */
  predicate ColumnMatches(q: string, column: Option<string>) {
    column.Some? && SqliteMatches(q, column.value)
  }

  /** The WHERE clause of `list`: an empty filter adds no condition. */
  predicate Listed(row: Install, status: string, q: string) {
    && (status == "" || row.status == status)
    && (q == "" || SqliteMatches(q, row.id) || ColumnMatches(q, row.domain) || ColumnMatches(q, row.name))
  }

  ghost predicate Mentions(row: Install, q: string) {
    || Occurs(q, row.id, UpToCase(Text.LowerChar))
    || (row.domain.Some? && Occurs(q, row.domain.value, UpToCase(Text.LowerChar)))
    || (row.name.Some? && Occurs(q, row.name.value, UpToCase(Text.LowerChar)))
  }

  /** An installation is listed exactly when its status is the one asked for and some column mentions the term. */
  lemma ListFindsMentions(row: Install, status: string, q: string)
    ensures Listed(row, status, q) <==> (status == "" || row.status == status) && Mentions(row, q)
  {
    SearchIsSubstring(q, row.id, UpToCase(Text.LowerChar));
    if row.domain.Some? { SearchIsSubstring(q, row.domain.value, UpToCase(Text.LowerChar)); }
    if row.name.Some? { SearchIsSubstring(q, row.name.value, UpToCase(Text.LowerChar)); }
    assert q == "" ==> OccursAt(q, row.id, 0, UpToCase(Text.LowerChar));
  }
}
