/** Migration 9 of the SQLite store (src/store/sqlite/migrations.ts): legacy timestamps rewritten once. */
module Migration {
  import opened Wrappers
  import opened Calendar
  import opened StoreTime
  import LikeSearch
  import Text

  /** The timestamp columns of the schema. */
  datatype Column =
    | InstallsCreatedAt | InstallsUpdatedAt | InstallsInstalledAt
    | InstallsActivatedAt | InstallsDeactivatedAt | InstallsUninstalledAt
    | StateUpdatedAt
    | CursorUpdatedAt | CursorLastSyncedAt
    | RunStartedAt | RunFinishedAt
    | WebhookLogCreatedAt | WebhookSeenCreatedAt
    | InboundReceivedAt | InboundProcessedAt
    | RejectedCreatedAt
    | AuditAt

  /** One UPDATE statement for each of them, in the order of the script. */
  const STATEMENTS: seq<Column> := [
    InstallsCreatedAt, InstallsUpdatedAt, InstallsInstalledAt,
    InstallsActivatedAt, InstallsDeactivatedAt, InstallsUninstalledAt,
    StateUpdatedAt, CursorUpdatedAt, CursorLastSyncedAt, RunStartedAt, RunFinishedAt,
    WebhookLogCreatedAt, WebhookSeenCreatedAt, InboundReceivedAt, InboundProcessedAt,
    RejectedCreatedAt, AuditAt
  ]

  const LEGACY_PATTERN := "____-__-__ __:__:__"

  predicate LooksLegacy(s: string) {
    LikeSearch.Like(LEGACY_PATTERN, s, LikeSearch.UpToCase(Text.LowerChar))
  }

  /** What one statement makes of a value. */
  function Normalized(s: string): string {
    if LooksLegacy(s) then Replace(s, ' ', 'T') + ".000Z" else s
  }

  /** A cell; LIKE on NULL selects nothing. */
  function NormalizedCell(cell: Option<string>): Option<string> {
    match cell
    case None => None
    case Some(s) => Some(Normalized(s))
  }

  function NormalizedColumn(cells: seq<Option<string>>): (r: seq<Option<string>>)
    ensures |r| == |cells|
    ensures forall i :: 0 <= i < |cells| ==> r[i] == NormalizedCell(cells[i])
  {
    seq(|cells|, i requires 0 <= i < |cells| => NormalizedCell(cells[i]))
  }

  class Database {
    /** The cells of every timestamp column, by row. */
    var columns: map<Column, seq<Option<string>>>

    constructor (columns: map<Column, seq<Option<string>>>)
      ensures this.columns == columns
    {
      this.columns := columns;
    }

    /** One UPDATE statement, row by row. */
    method Update(c: Column)
      requires c in columns
      modifies this
      ensures columns == old(columns)[c := NormalizedColumn(old(columns)[c])]
    {
      var cells := columns[c];
      for i := 0 to |cells|
        invariant |cells| == |old(columns)[c]|
        invariant forall k :: 0 <= k < i ==> cells[k] == NormalizedCell(old(columns)[c][k])
        invariant forall k :: i <= k < |cells| ==> cells[k] == old(columns)[c][k]
      {
        if cells[i].Some? && LooksLegacy(cells[i].value) {
          cells := cells[i := Some(Replace(cells[i].value, ' ', 'T') + ".000Z")];
        }
      }
      assert cells == NormalizedColumn(old(columns)[c]);
      columns := columns[c := cells];
    }

    /** The whole script. */
    method Migrate()
      requires forall c :: c in columns
      modifies this
      ensures forall c :: c in columns && columns[c] == NormalizedColumn(old(columns)[c])
    {
      for n := 0 to |STATEMENTS|
        invariant forall c :: c in columns
        invariant forall k :: 0 <= k < n ==>
                    columns[STATEMENTS[k]] == NormalizedColumn(old(columns)[STATEMENTS[k]])
        invariant forall k :: n <= k < |STATEMENTS| ==> columns[STATEMENTS[k]] == old(columns)[STATEMENTS[k]]
      {
        StatementsAreDistinct(n);
        Update(STATEMENTS[n]);
      }
      forall c ensures columns[c] == NormalizedColumn(old(columns)[c]) {
        StatementOf(c);
      }
    }
  }

  lemma StatementsAreDistinct(n: nat)
    requires n < |STATEMENTS|
    ensures forall k :: 0 <= k < |STATEMENTS| && k != n ==> STATEMENTS[k] != STATEMENTS[n]
  {
  }

  /** No timestamp column is forgotten. */
  lemma StatementOf(c: Column)
    ensures c in STATEMENTS
  {
  }

  // ---- What the pattern selects ----------------------------------------------------------------------

  predicate Fits(p: char, c: char) {
    p == '_' || Text.LowerChar(p) == Text.LowerChar(c)
  }

  /** Without `%` and escapes a pattern selects texts of its own length, position by position. */
  lemma {:induction false} FixedPattern(p: string, s: string)
    requires forall i :: 0 <= i < |p| ==> p[i] != '%' && p[i] != '\\'
    ensures LikeSearch.Like(p, s, LikeSearch.UpToCase(Text.LowerChar)) <==>
            |s| == |p| && forall i :: 0 <= i < |p| ==> Fits(p[i], s[i])
  {
    if p != "" && s != "" {
      assert p[0] != '%' && p[0] != '\\';
      FixedPattern(p[1..], s[1..]);
      assert forall i :: 0 < i < |p| ==> p[i] == p[1..][i - 1];
      assert forall i :: 0 < i < |s| ==> s[i] == s[1..][i - 1];
    }
  }

  lemma SameFold(p: char, c: char)
    requires p == '-' || p == ' ' || p == ':'
    ensures Text.LowerChar(p) == Text.LowerChar(c) <==> p == c
  {
  }

  /** The pattern selects the nineteen-character texts with the separators of the legacy format. */
  lemma SelectedExactly(s: string)
    ensures LooksLegacy(s) <==>
            |s| == 19 && s[4] == '-' && s[7] == '-' && s[10] == ' ' && s[13] == ':' && s[16] == ':'
  {
    FixedPattern(LEGACY_PATTERN, s);
    if |s| == 19 {
      var p := LEGACY_PATTERN;
      SameFold('-', s[4]);
      SameFold('-', s[7]);
      SameFold(' ', s[10]);
      SameFold(':', s[13]);
      SameFold(':', s[16]);
      assert p[4] == '-' && p[7] == '-' && p[10] == ' ' && p[13] == ':' && p[16] == ':';
      assert Fits(p[4], s[4]) && Fits(p[7], s[7]) && Fits(p[10], s[10]) && Fits(p[13], s[13]) && Fits(p[16], s[16])
        ==> s[4] == '-' && s[7] == '-' && s[10] == ' ' && s[13] == ':' && s[16] == ':';
    }
  }

  // ---- What the migration keeps ----------------------------------------------------------------------

  /** Running it again changes nothing, whatever the columns hold. */
  lemma MigrationIsIdempotent(s: string)
    ensures Normalized(Normalized(s)) == Normalized(s)
  {
    SelectedExactly(Normalized(s));
    SelectedExactly(s);
  }

  /** Every text reads as the same instant, or as none, before and after. */
  lemma MigrationKeepsInstants(s: string)
    ensures ParseStoreTimestamp(Normalized(s)) == ParseStoreTimestamp(s)
  {
    SelectedExactly(s);
    if LooksLegacy(s) {
      var r := Replace(s, ' ', 'T');
      var short, long := r + "Z", r + ".000Z";
      assert forall i :: 0 <= i < 19 ==> short[i] == r[i] && long[i] == r[i];
      forall i: nat, j: nat | i <= j <= 19 ensures short[i..j] == long[i..j] {
        assert short[i..j] == r[i..j] == long[i..j];
      }
      assert long[20..23] == "000" == Pad(0, 3);
      PadAt(long, 20, 0, 3);
      assert Shaped(short, 'T') <==> Shaped(long, 'T');
      assert Shaped(short, 'T') <==> Shaped(s, ' ');
    }
  }

  /** A value either writer of the store can have left. */
  ghost predicate Wrote(s: string, c: Civil) {
    && Valid(c) && FourDigitYear(c)
    && (s == Iso(c) || (s == Legacy(c) && c.milli == 0))
  }

  lemma LegacyBecomesIso(s: string, c: Civil)
    requires Wrote(s, c)
    ensures Normalized(s) == Iso(c)
  {
    SelectedExactly(s);
    if s == Iso(c) {
      IsoIsRead(c);
    } else {
      LegacyIsRead(c);
      Rewritten(c);
    }
  }

  lemma Rewritten(c: Civil)
    requires Valid(c) && FourDigitYear(c) && c.milli == 0
    ensures Replace(Legacy(c), ' ', 'T') + ".000Z" == Iso(c)
  {
    LegacyReplaced(c);
    assert Pad(0, 3) == "000";
    assert ".000Z" == "." + (Pad(c.milli, 3) + "Z");
  }

  lemma LegacyReplaced(c: Civil)
    requires Valid(c) && FourDigitYear(c)
    ensures Replace(Legacy(c), ' ', 'T') == Pad(c.year, 4) + (Date(c) + ("T" + Clock(c)))
  {
  }

  /** After the migration the values of both writers sort as time does. */
  lemma MigratedColumnsSortByTime(s: string, t: string, c: Civil, d: Civil)
    requires Wrote(s, c) && Wrote(t, d)
    ensures TextLess(Normalized(s), Normalized(t)) <==> Instant(c) < Instant(d)
  {
    LegacyBecomesIso(s, c);
    LegacyBecomesIso(t, d);
    TextOrderIsTimeOrderExactly(c, d);
  }

  /**
   * A column after the migration: NULL stays NULL, every text reads as the same instant or none, texts of
   * another shape stay as they are, and a second run would change nothing.
   */
  lemma ColumnKeepsItsMeaning(cells: seq<Option<string>>, i: nat)
    requires i < |cells|
    ensures var after := NormalizedColumn(cells);
            && |after| == |cells| && NormalizedColumn(after) == after
            && (cells[i].None? <==> after[i].None?)
            && (cells[i].Some? ==> ParseStoreTimestamp(after[i].value) == ParseStoreTimestamp(cells[i].value))
            && (cells[i].Some? && |cells[i].value| != 19 ==> after[i] == cells[i])
  {
    var after := NormalizedColumn(cells);
    forall k | 0 <= k < |cells| ensures NormalizedCell(after[k]) == after[k] {
      if cells[k].Some? {
        MigrationIsIdempotent(cells[k].value);
      }
    }
    if cells[i].Some? {
      MigrationKeepsInstants(cells[i].value);
      SelectedExactly(cells[i].value);
    }
  }
}
