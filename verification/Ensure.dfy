/**
 * Find-or-extend-or-create of a custom-data definition (src/provisioning/ensure.ts) against a model
 * of the definitions the API keeps: an append-only extend, a logical delete, and a name check that
 * runs over live definitions only.
 */
module Ensure {
  import opened Wrappers
  import opened Contracts
  import opened Text

  // ---- Reading a listing -----------------------------------------------------------------------

  /** A listed row: the API spells the name and the id in two ways and may omit either. */
  datatype Row = Row(
    name: Option<string>,
    schemaName: Option<string>,
    idDefinition: Option<int>,
    id: Option<int>,
    status: Option<string>)

  /**
   * `trim` and `toLowerCase`, and the key under which the API compares names. All the kit relies on is
   * that trimming twice is trimming once; of the API's key, only that names the kit takes for equal are
   * equal for the API too. The API may fold more, such as accents.
   */
  datatype Spelling = Spelling(trim: string -> string, lower: string -> string, apiKey: string -> string) {
    ghost predicate Valid() {
      && (forall s {:trigger trim(trim(s))} :: trim(trim(s)) == trim(s))
      && (forall a, b {:trigger apiKey(a), apiKey(b)} :: Name(Some(a)) == Name(Some(b)) ==> apiKey(a) == apiKey(b))
    }

    /** Normalizes a natural key; an absent one reads as empty. */
    function Key(v: Option<string>): string {
      match v
      case Some(s) => trim(s)
      case None => ""
    }

    /** Normalizes a definition name. */
    function Name(v: Option<string>): string {
      lower(Key(v))
    }
  }

  /** The functions of the language, on ASCII case folding, before an API that folds some letters more. */
  function KitSpelling(fold: char -> char): Spelling {
    Spelling(Trim, Lower, s => FoldedKey(s, fold))
  }

  function FoldedKey(s: string, fold: char -> char): string {
    FoldedText(Lower(Trim(s)), fold)
  }

  function FoldedText(s: string, fold: char -> char): (t: string)
    ensures |t| == |s| && forall i :: 0 <= i < |s| ==> t[i] == fold(s[i])
  {
    seq(|s|, i requires 0 <= i < |s| => fold(s[i]))
  }

  lemma KitSpellingValid(fold: char -> char)
    ensures KitSpelling(fold).Valid()
  {
    var sp := KitSpelling(fold);
    forall s ensures sp.trim(sp.trim(s)) == sp.trim(s) {
      TrimIsIdempotent(s);
    }
    forall a, b | sp.Name(Some(a)) == sp.Name(Some(b)) ensures sp.apiKey(a) == sp.apiKey(b) {
      SameNameSameKey(a, b, fold);
    }
  }

  lemma SameNameSameKey(a: string, b: string, fold: char -> char)
    requires Lower(Trim(a)) == Lower(Trim(b))
    ensures FoldedKey(a, fold) == FoldedKey(b, fold)
  {
  }

  function RowName(row: Row): Option<string> {
    if row.name.Some? then row.name else row.schemaName
  }

  function RowId(row: Row): int {
    if row.idDefinition.Some? then row.idDefinition.value
    else if row.id.Some? then row.id.value
    else 0
  }

  /** The statuses the kit tells apart. */
  datatype Status = Absent | Active | Inactive | Editing | Creating | Deleted | Other(text: string)

  function StatusOf(sp: Spelling, text: Option<string>): Status {
    var key := sp.Name(text);
    if key == "" then Absent
    else if key == "active" then Active
    else if key == "inactive" then Inactive
    else if key == "editing" then Editing
    else if key == "creating" then Creating
    else if key == "deleted" then Deleted
    else Other(key)
  }

  /** How usable a definition is; an unknown or absent status ranks as active. */
  function Rank(status: Status): nat {
    match status
    case Inactive => 2
    case Editing => 1
    case Creating => 1
    case _ => 3
  }

  datatype Candidate = Candidate(id: int, status: Status)

  /** The order the candidates are sorted by: best rank first, then the lowest id. */
  predicate Before(a: Candidate, b: Candidate) {
    Rank(a.status) > Rank(b.status) || (Rank(a.status) == Rank(b.status) && a.id < b.id)
  }

  predicate IsUsable(sp: Spelling, row: Row, wanted: string) {
    sp.Name(RowName(row)) == wanted && StatusOf(sp, row.status) != Deleted && RowId(row) > 0
  }

  function CandidateOf(sp: Spelling, row: Row): Candidate {
    Candidate(RowId(row), StatusOf(sp, row.status))
  }

  function Candidates(sp: Spelling, rows: seq<Row>, wanted: string): seq<Candidate> {
    if rows == [] then []
    else
      var row := rows[|rows| - 1];
      var before := Candidates(sp, rows[..|rows| - 1], wanted);
      if IsUsable(sp, row, wanted) then before + [CandidateOf(sp, row)] else before
  }

  /** The head of the sorted candidates: the first of those that none comes before. */
  function Best(cs: seq<Candidate>): (best: Candidate)
    requires cs != []
    ensures best in cs
    ensures forall c :: c in cs ==> !Before(c, best)
  {
    if |cs| == 1 then cs[0]
    else
      var best := Best(cs[..|cs| - 1]);
      var last := cs[|cs| - 1];
      assert forall c :: c in cs ==> c in cs[..|cs| - 1] || c == last;
      if Before(last, best) then last else best
  }

  function FindDefinition(sp: Spelling, rows: seq<Row>, wanted: string): Option<Candidate> {
    var cs := Candidates(sp, rows, wanted);
    if cs == [] then None else Some(Best(cs))
  }

  /** The candidate comes from a usable row of the listing. */
  ghost predicate Offered(sp: Spelling, rows: seq<Row>, wanted: string, c: Candidate) {
    exists i :: 0 <= i < |rows| && IsUsable(sp, rows[i], wanted) && CandidateOf(sp, rows[i]) == c
  }

  lemma {:induction false} UsableIsCandidate(sp: Spelling, rows: seq<Row>, wanted: string, i: nat)
    requires i < |rows| && IsUsable(sp, rows[i], wanted)
    ensures CandidateOf(sp, rows[i]) in Candidates(sp, rows, wanted)
  {
    if i < |rows| - 1 {
      UsableIsCandidate(sp, rows[..|rows| - 1], wanted, i);
    }
  }

  lemma {:induction false} CandidateIsUsable(sp: Spelling, rows: seq<Row>, wanted: string, c: Candidate)
    requires c in Candidates(sp, rows, wanted)
    ensures Offered(sp, rows, wanted, c)
  {
    var init, row := rows[..|rows| - 1], rows[|rows| - 1];
    if IsUsable(sp, row, wanted) && CandidateOf(sp, row) == c {
    } else {
      CandidateIsUsable(sp, init, wanted, c);
      var i :| 0 <= i < |init| && IsUsable(sp, init[i], wanted) && CandidateOf(sp, init[i]) == c;
      assert rows[i] == init[i];
    }
  }

  /** What the choice is: a live row with an id, under the wanted name, that no usable row beats. */
  lemma FoundIsBest(sp: Spelling, rows: seq<Row>, wanted: string)
    ensures match FindDefinition(sp, rows, wanted)
            case None => forall c :: !Offered(sp, rows, wanted, c)
            case Some(found) =>
              Offered(sp, rows, wanted, found) && forall c :: Offered(sp, rows, wanted, c) ==> !Before(c, found)
  {
    forall c ensures c in Candidates(sp, rows, wanted) <==> Offered(sp, rows, wanted, c) {
      if c in Candidates(sp, rows, wanted) {
        CandidateIsUsable(sp, rows, wanted, c);
      }
      if Offered(sp, rows, wanted, c) {
        var i :| 0 <= i < |rows| && IsUsable(sp, rows[i], wanted) && CandidateOf(sp, rows[i]) == c;
        UsableIsCandidate(sp, rows, wanted, i);
      }
    }
  }

  ghost predicate DistinctIds(rows: seq<Row>) {
    forall i, j :: 0 <= i < j < |rows| ==> RowId(rows[i]) != RowId(rows[j])
  }

  /**
   * The chosen id does not depend on the order in which the rows are listed; with distinct ids,
   * neither does the status reported with it.
   */
  lemma FoundIgnoresListingOrder(sp: Spelling, a: seq<Row>, b: seq<Row>, wanted: string)
    requires multiset(a) == multiset(b)
    ensures FindDefinition(sp, a, wanted).Some? <==> FindDefinition(sp, b, wanted).Some?
    ensures FindDefinition(sp, a, wanted).Some? ==>
              FindDefinition(sp, a, wanted).value.id == FindDefinition(sp, b, wanted).value.id
    ensures FindDefinition(sp, a, wanted).Some? && DistinctIds(a) ==>
              FindDefinition(sp, a, wanted) == FindDefinition(sp, b, wanted)
  {
    FoundIsBest(sp, a, wanted);
    FoundIsBest(sp, b, wanted);
    forall c ensures Offered(sp, a, wanted, c) <==> Offered(sp, b, wanted, c) {
      OfferedIgnoresListingOrder(sp, a, b, wanted, c);
      OfferedIgnoresListingOrder(sp, b, a, wanted, c);
    }
    var fa, fb := FindDefinition(sp, a, wanted), FindDefinition(sp, b, wanted);
    if fa.Some? {
      assert Offered(sp, b, wanted, fa.value) && Offered(sp, a, wanted, fb.value);
      var i :| 0 <= i < |a| && IsUsable(sp, a[i], wanted) && CandidateOf(sp, a[i]) == fa.value;
      var j :| 0 <= j < |a| && IsUsable(sp, a[j], wanted) && CandidateOf(sp, a[j]) == fb.value;
      assert RowId(a[i]) == RowId(a[j]);
    }
    assert fb.Some? ==> Offered(sp, a, wanted, fb.value);
  }

  lemma OfferedIgnoresListingOrder(sp: Spelling, a: seq<Row>, b: seq<Row>, wanted: string, c: Candidate)
    requires multiset(a) == multiset(b)
    ensures Offered(sp, a, wanted, c) ==> Offered(sp, b, wanted, c)
  {
    if Offered(sp, a, wanted, c) {
      var i :| 0 <= i < |a| && IsUsable(sp, a[i], wanted) && CandidateOf(sp, a[i]) == c;
      assert a[i] in multiset(b);
      var j :| 0 <= j < |b| && b[j] == a[i];
    }
  }

  // ---- The API ---------------------------------------------------------------------------------

  datatype Stored = Stored(name: string, status: Status, fields: seq<Field>, relationships: seq<Relationship>)

  /** The definitions of an account by id, deleted ones included. */
  type Account = map<int, Stored>

  ghost predicate ValidAccount(account: Account) {
    forall id :: id in account ==> id > 0
  }

  predicate Live(account: Account, id: int) {
    id in account && account[id].status != Deleted
  }

  /** A live definition under the wanted name. */
  predicate Holds(sp: Spelling, account: Account, id: int, wanted: string) {
    Live(account, id) && sp.Name(Some(account[id].name)) == wanted
  }

  predicate HasRow(sp: Spelling, account: Account, wanted: string) {
    exists id :: id in account && Holds(sp, account, id, wanted)
  }

  predicate Clashes(sp: Spelling, account: Account, id: int, name: string) {
    Live(account, id) && sp.apiKey(account[id].name) == sp.apiKey(name)
  }

  /** The API's own name check: by its own key, over live definitions. */
  predicate NameTaken(sp: Spelling, account: Account, name: string) {
    exists id :: id in account && Clashes(sp, account, id, name)
  }

  /** No live row bears the name for the kit, but for the API one does: a create is refused. */
  predicate Shadowed(sp: Spelling, account: Account, name: string) {
    !HasRow(sp, account, sp.Name(Some(name))) && NameTaken(sp, account, name)
  }

  ghost predicate Describes(sp: Spelling, row: Row, id: int, stored: Stored) {
    && RowId(row) == id
    && sp.Name(RowName(row)) == sp.Name(Some(stored.name))
    && StatusOf(sp, row.status) == stored.status
  }

  /** A complete listing, in any order. */
  ghost predicate IsListing(sp: Spelling, account: Account, rows: seq<Row>) {
    && (forall i :: 0 <= i < |rows| ==>
          RowId(rows[i]) in account && Describes(sp, rows[i], RowId(rows[i]), account[RowId(rows[i])]))
    && (forall id :: id in account ==> exists i :: 0 <= i < |rows| && RowId(rows[i]) == id)
  }

  /** What the API answers to a create: a fresh id, and the status the row has once activated. */
  datatype Reply = Reply(id: int, status: Status)

  ghost predicate ValidReply(account: Account, reply: Reply) {
    reply.id > 0 && reply.id !in account && reply.status != Deleted
  }

  /**
   * Calls that fail in transport: the read of a definition, or the write, which the API may nonetheless
   * have carried out.
   */
  datatype Fault = NoFault | ReadFails | WriteFails(applied: bool)

  /** The writes the kit sends. */
  datatype Write =
    | Extend(id: int, fields: seq<Field>, relationships: seq<Relationship>)
    | Create(name: string, fields: seq<Field>, relationships: seq<Relationship>)

  // ---- Ensuring one definition -----------------------------------------------------------------

  function FieldNames(fields: seq<Field>): set<string> {
    set i | 0 <= i < |fields| && fields[i].name != "" :: fields[i].name
  }

  function SourceFields(sp: Spelling, rels: seq<Relationship>): set<string> {
    set i | 0 <= i < |rels| && sp.trim(rels[i].sourceField) != "" :: sp.trim(rels[i].sourceField)
  }

  function MissingFields(fields: seq<Field>, have: set<string>): (missing: seq<Field>)
    ensures forall f :: f in missing <==> f in fields && f.name !in have
    ensures (forall f :: f in fields ==> f.name in have) ==> missing == []
  {
    if fields == [] then []
    else (if fields[0].name in have then [] else [fields[0]]) + MissingFields(fields[1..], have)
  }

  function MissingRelationships(sp: Spelling, rels: seq<Relationship>, have: set<string>): (missing: seq<Relationship>)
    ensures forall r :: r in missing <==> r in rels && sp.trim(r.sourceField) !in have
    ensures (forall r :: r in rels ==> sp.trim(r.sourceField) in have) ==> missing == []
  {
    if rels == [] then []
    else (if sp.trim(rels[0].sourceField) in have then [] else [rels[0]]) + MissingRelationships(sp, rels[1..], have)
  }

  /** The stored relationship on a source field, the first if there are several. */
  function StoredOn(sp: Spelling, stored: seq<Relationship>, sourceField: string): (found: Option<Relationship>)
    ensures found.Some? ==> found.value in stored && sp.trim(found.value.sourceField) == sp.trim(sourceField)
    ensures found.None? ==> forall r :: r in stored ==> sp.trim(r.sourceField) != sp.trim(sourceField)
  {
    if stored == [] then None
    else if sp.trim(stored[0].sourceField) == sp.trim(sourceField) then Some(stored[0])
    else StoredOn(sp, stored[1..], sourceField)
  }

  /** A relationship whose stored target is another definition than the plan resolves to. */
  predicate IsStale(sp: Spelling, r: Relationship, stored: seq<Relationship>) {
    var found := StoredOn(sp, stored, r.sourceField);
    && r.kind == Custom
    && found.Some?
    && IsNumeric(sp.trim(found.value.targetSchema))
    && IsNumeric(sp.trim(r.targetSchema))
    && sp.trim(found.value.targetSchema) != sp.trim(r.targetSchema)
  }

  function StaleOnes(sp: Spelling, rels: seq<Relationship>, stored: seq<Relationship>): seq<Relationship> {
    if rels == [] then []
    else
      var last := rels[|rels| - 1];
      StaleOnes(sp, rels[..|rels| - 1], stored) + if IsStale(sp, last, stored) then [last] else []
  }

  /** The id returned (or the call that threw), the writes sent, and the problems collected. */
  datatype Outcome = Outcome(
    account: Account,
    id: Result<int, string>,
    writes: seq<Write>,
    problems: seq<Relationship>)

  function EnsureFound(sp: Spelling, account: Account, id: int, def: Definition, fault: Fault): Outcome {
    if fault.ReadFails? || !Live(account, id) then
      Outcome(account, Failure("getCustomDataDefinition"), [], [])
    else
      var full := account[id];
      var fields := MissingFields(def.fields, FieldNames(full.fields));
      var rels := MissingRelationships(sp, def.relationships, SourceFields(sp, full.relationships));
      var problems := StaleOnes(sp, def.relationships, full.relationships);
      if fields == [] && rels == [] then
        Outcome(account, Success(id), [], problems)
      else
        var extended := account[id := full.(fields := full.fields + fields,
                                            relationships := full.relationships + rels)];
        var write := Extend(id, fields, rels);
        match fault
        case WriteFails(applied) =>
          Outcome(if applied then extended else account, Failure("extendCustomDataDefinition"), [write], problems)
        case _ => Outcome(extended, Success(id), [write], problems)
  }

  function EnsureNew(sp: Spelling, account: Account, def: Definition, reply: Reply, fault: Fault): Outcome {
    var name := sp.trim(def.name);
    var write := Create(name, def.fields, def.relationships);
    if NameTaken(sp, account, name) then
      Outcome(account, Failure("createCustomDataDefinition"), [write], [])
    else
      var created := account[reply.id := Stored(name, reply.status, def.fields, def.relationships)];
      match fault
      case WriteFails(applied) =>
        Outcome(if applied then created else account, Failure("createCustomDataDefinition"), [write], [])
      case _ => Outcome(created, Success(reply.id), [write], [])
  }

  function EnsureWith(
      sp: Spelling, account: Account, rows: seq<Row>, def: Definition, reply: Reply, fault: Fault): Outcome
  {
    match FindDefinition(sp, rows, sp.Name(Some(def.name)))
    case Some(found) => EnsureFound(sp, account, found.id, def, fault)
    case None => EnsureNew(sp, account, def, reply, fault)
  }

  /** When every call is answered. */
  function EnsureDefinition(sp: Spelling, account: Account, rows: seq<Row>, def: Definition, reply: Reply): Outcome {
    EnsureWith(sp, account, rows, def, reply, NoFault)
  }

  /** The account as the kit sees it over the network; `writes` logs what was sent. */
  class Api {
    const sp: Spelling
    var account: Account
    var writes: seq<Write>

    constructor (sp: Spelling, account: Account)
      ensures this.sp == sp && this.account == account && writes == []
    {
      this.sp, this.account, this.writes := sp, account, [];
    }

    /** `ensureCustomDataDefinition`, once the listing has been read; `listing` is absent if that call failed. */
    method EnsureCustomDataDefinition(listing: Option<seq<Row>>, def: Definition, reply: Reply, fault: Fault)
      returns (id: Result<int, string>, problems: seq<Relationship>)
      modifies this
      ensures listing.None? ==>
                account == old(account) && writes == old(writes) && problems == [] &&
                id == Failure("listCustomDataDefinitions")
      ensures listing.Some? ==>
                var out := EnsureWith(sp, old(account), listing.value, def, reply, fault);
                && account == out.account && id == out.id && problems == out.problems
                && writes == old(writes) + out.writes
    {
      problems := [];
      if listing.None? {
        return Failure("listCustomDataDefinitions"), [];
      }
      var found := FindDefinition(sp, listing.value, sp.Name(Some(def.name)));
      if found.Some? {
        id, problems := ExtendFound(found.value.id, def, fault);
      } else {
        id := CreateNew(def, reply, fault);
      }
    }

    /** The branch for a definition the listing offers: report stale links, then extend it by what it lacks. */
    method ExtendFound(target: int, def: Definition, fault: Fault)
      returns (id: Result<int, string>, problems: seq<Relationship>)
      modifies this
      ensures var out := EnsureFound(sp, old(account), target, def, fault);
              && account == out.account && id == out.id && problems == out.problems
              && writes == old(writes) + out.writes
    {
      problems := [];
      if fault.ReadFails? || !Live(account, target) {
        return Failure("getCustomDataDefinition"), [];
      }
      var full := account[target];
      var fields := MissingFields(def.fields, FieldNames(full.fields));
      var rels := MissingRelationships(sp, def.relationships, SourceFields(sp, full.relationships));
      problems := ReportStale(def.relationships, full.relationships);
      if fields != [] || rels != [] {
        writes := writes + [Extend(target, fields, rels)];
        if !fault.WriteFails? || fault.applied {
          account := account[target := full.(fields := full.fields + fields,
                                             relationships := full.relationships + rels)];
        }
        if fault.WriteFails? {
          return Failure("extendCustomDataDefinition"), problems;
        }
      }
      return Success(target), problems;
    }

    /** The loop over the declared relationships that collects the stale ones. */
    method ReportStale(rels: seq<Relationship>, stored: seq<Relationship>) returns (problems: seq<Relationship>)
      ensures problems == StaleOnes(sp, rels, stored)
    {
      problems := [];
      for i := 0 to |rels|
        invariant problems == StaleOnes(sp, rels[..i], stored)
      {
        assert rels[..i + 1][..i] == rels[..i];
        if IsStale(sp, rels[i], stored) {
          problems := problems + [rels[i]];
        }
      }
      assert rels[..|rels|] == rels;
    }

    /** The branch for a name the listing does not offer. */
    method CreateNew(def: Definition, reply: Reply, fault: Fault) returns (id: Result<int, string>)
      modifies this
      ensures var out := EnsureNew(sp, old(account), def, reply, fault);
              account == out.account && id == out.id && writes == old(writes) + out.writes
    {
      var name := sp.trim(def.name);
      writes := writes + [Create(name, def.fields, def.relationships)];
      if NameTaken(sp, account, name) {
        return Failure("createCustomDataDefinition");
      }
      if !fault.WriteFails? || fault.applied {
        account := account[reply.id := Stored(name, reply.status, def.fields, def.relationships)];
      }
      if fault.WriteFails? {
        return Failure("createCustomDataDefinition");
      }
      return Success(reply.id);
    }
  }

  // ---- Convergence -----------------------------------------------------------------------------

  ghost function AsCandidate(account: Account, id: int): Candidate
    requires id in account
  {
    Candidate(id, account[id].status)
  }

  /** The definition every complete listing of the account resolves to. */
  ghost predicate Chosen(sp: Spelling, account: Account, id: int, wanted: string) {
    && Holds(sp, account, id, wanted)
    && forall other :: other in account && Holds(sp, account, other, wanted) ==>
         !Before(AsCandidate(account, other), AsCandidate(account, id))
  }

  lemma FoundOnListing(sp: Spelling, account: Account, rows: seq<Row>, wanted: string)
    requires ValidAccount(account) && IsListing(sp, account, rows)
    ensures match FindDefinition(sp, rows, wanted)
            case Some(found) => Chosen(sp, account, found.id, wanted)
            case None => forall id :: id in account ==> !Holds(sp, account, id, wanted)
  {
    FoundIsBest(sp, rows, wanted);
    forall id | id in account && Holds(sp, account, id, wanted)
      ensures Offered(sp, rows, wanted, AsCandidate(account, id))
    {
      var i :| 0 <= i < |rows| && RowId(rows[i]) == id;
      assert IsUsable(sp, rows[i], wanted);
    }
  }

  /** At most one id is chosen for a name. */
  lemma ChosenIsUnique(sp: Spelling, account: Account, a: int, b: int, wanted: string)
    requires Chosen(sp, account, a, wanted) && Chosen(sp, account, b, wanted)
    ensures a == b
  {
    assert !Before(AsCandidate(account, a), AsCandidate(account, b));
    assert !Before(AsCandidate(account, b), AsCandidate(account, a));
  }

  ghost predicate HasField(fields: seq<Field>, name: string) {
    exists i :: 0 <= i < |fields| && fields[i].name == name
  }

  ghost predicate HasSource(sp: Spelling, rels: seq<Relationship>, sourceField: string) {
    exists i :: 0 <= i < |rels| && sp.trim(rels[i].sourceField) == sourceField
  }

  /** The stored definition has every field and every relationship the plan declares. */
  ghost predicate Covers(sp: Spelling, stored: Stored, def: Definition) {
    && (forall f :: f in def.fields ==> HasField(stored.fields, f.name))
    && (forall k :: 0 <= k < |def.relationships| ==>
          HasSource(sp, stored.relationships, sp.trim(def.relationships[k].sourceField)))
  }

  /** The definition is resolved: ensuring it again has one id to return and nothing to add. */
  ghost predicate Settled(sp: Spelling, account: Account, def: Definition, id: int) {
    Chosen(sp, account, id, sp.Name(Some(def.name))) && Covers(sp, account[id], def)
  }

  /** No field without a name, no relationship on a blank source field. */
  ghost predicate NoBlanks(sp: Spelling, def: Definition) {
    && (forall f :: f in def.fields ==> f.name != "")
    && (forall k :: 0 <= k < |def.relationships| ==> sp.trim(def.relationships[k].sourceField) != "")
  }

  /** Nothing the account holds is lost or renamed, and no status changes. */
  ghost predicate Grows(before: Account, after: Account) {
    forall id :: id in before ==>
      && id in after
      && after[id].name == before[id].name && after[id].status == before[id].status
      && before[id].fields <= after[id].fields && before[id].relationships <= after[id].relationships
  }

  lemma FieldsAppended(a: seq<Field>, b: seq<Field>, name: string)
    ensures HasField(a + b, name) <==> HasField(a, name) || HasField(b, name)
  {
    var all := a + b;
    if HasField(a, name) {
      var i :| 0 <= i < |a| && a[i].name == name;
      assert all[i] == a[i];
    } else if HasField(b, name) {
      var i :| 0 <= i < |b| && b[i].name == name;
      assert all[|a| + i] == b[i];
    }
  }

  lemma SourcesAppended(sp: Spelling, a: seq<Relationship>, b: seq<Relationship>, sourceField: string)
    ensures HasSource(sp, a + b, sourceField) <==> HasSource(sp, a, sourceField) || HasSource(sp, b, sourceField)
  {
    var all := a + b;
    if HasSource(sp, a, sourceField) {
      var i :| 0 <= i < |a| && sp.trim(a[i].sourceField) == sourceField;
      assert all[i] == a[i];
    } else if HasSource(sp, b, sourceField) {
      var i :| 0 <= i < |b| && sp.trim(b[i].sourceField) == sourceField;
      assert all[|a| + i] == b[i];
    }
  }

  lemma ExtendCovers(sp: Spelling, full: Stored, def: Definition)
    ensures var fields := MissingFields(def.fields, FieldNames(full.fields));
            var rels := MissingRelationships(sp, def.relationships, SourceFields(sp, full.relationships));
            Covers(sp, full.(fields := full.fields + fields, relationships := full.relationships + rels), def)
  {
    var fields := MissingFields(def.fields, FieldNames(full.fields));
    var rels := MissingRelationships(sp, def.relationships, SourceFields(sp, full.relationships));
    forall f | f in def.fields ensures HasField(full.fields + fields, f.name) {
      FieldsAppended(full.fields, fields, f.name);
      if f.name !in FieldNames(full.fields) {
        assert f in fields;
        assert HasField(fields, f.name);
      }
    }
    forall r | r in def.relationships ensures HasSource(sp, full.relationships + rels, sp.trim(r.sourceField)) {
      SourcesAppended(sp, full.relationships, rels, sp.trim(r.sourceField));
      if sp.trim(r.sourceField) !in SourceFields(sp, full.relationships) {
        assert r in rels;
        assert HasSource(sp, rels, sp.trim(r.sourceField));
      }
    }
  }

  lemma DeclarationCoversItself(sp: Spelling, def: Definition, name: string, status: Status)
    ensures Covers(sp, Stored(name, status, def.fields, def.relationships), def)
  {
    forall f | f in def.fields ensures HasField(def.fields, f.name) {
      var i :| 0 <= i < |def.fields| && def.fields[i] == f;
    }
    forall r | r in def.relationships ensures HasSource(sp, def.relationships, sp.trim(r.sourceField)) {
      var i :| 0 <= i < |def.relationships| && def.relationships[i] == r;
    }
  }

  /** Growth without new names keeps every choice; extra rows under other names change nothing. */
  lemma ChosenSurvives(sp: Spelling, before: Account, after: Account, id: int, wanted: string)
    requires Chosen(sp, before, id, wanted) && Grows(before, after)
    requires forall other :: other in after && other !in before ==> !Holds(sp, after, other, wanted)
    ensures Chosen(sp, after, id, wanted)
  {
    forall other | other in after && Holds(sp, after, other, wanted)
      ensures !Before(AsCandidate(after, other), AsCandidate(after, id))
    {
      assert Holds(sp, before, other, wanted);
      assert AsCandidate(after, other) == AsCandidate(before, other);
    }
  }

  lemma TrimmedAlike(sp: Spelling, account: Account, name: string)
    requires sp.Valid()
    ensures sp.Name(Some(sp.trim(name))) == sp.Name(Some(name)) && sp.apiKey(sp.trim(name)) == sp.apiKey(name)
    ensures NameTaken(sp, account, sp.trim(name)) <==> NameTaken(sp, account, name)
  {
    assert sp.trim(sp.trim(name)) == sp.trim(name);
    assert sp.apiKey(sp.trim(name)) == sp.apiKey(name);
    assert forall id :: Clashes(sp, account, id, sp.trim(name)) <==> Clashes(sp, account, id, name);
  }

  lemma HeldIsTaken(sp: Spelling, account: Account, id: int, name: string)
    requires sp.Valid() && Holds(sp, account, id, sp.Name(Some(name)))
    ensures Clashes(sp, account, id, name) && NameTaken(sp, account, name)
  {
    assert sp.apiKey(account[id].name) == sp.apiKey(name);
  }

  /**
   * Against a complete listing, ensuring a definition returns an id exactly when it is not shadowed, and
   * then leaves it settled. A shadowed one is sent as a create that is refused, and changes nothing.
   */
  lemma EnsureSettles(sp: Spelling, account: Account, rows: seq<Row>, def: Definition, reply: Reply)
    requires sp.Valid() && ValidAccount(account) && IsListing(sp, account, rows) && ValidReply(account, reply)
    ensures var out := EnsureDefinition(sp, account, rows, def, reply);
            && (out.id.Success? <==> !Shadowed(sp, account, def.name))
            && ValidAccount(out.account)
            && Grows(account, out.account)
            && (!Shadowed(sp, account, def.name) ==> Settled(sp, out.account, def, out.id.value))
  {
    var wanted := sp.Name(Some(def.name));
    FoundOnListing(sp, account, rows, wanted);
    TrimmedAlike(sp, account, def.name);
    match FindDefinition(sp, rows, wanted) {
      case Some(found) =>
        assert HasRow(sp, account, wanted);
        FoundSettles(sp, account, found.id, def);
      case None =>
        if !Shadowed(sp, account, def.name) {
          NewSettles(sp, account, def, reply);
        }
    }
  }

  /** The same create is refused on every run, whatever the order of the listing. */
  lemma ShadowedIsRefused(sp: Spelling, account: Account, rows: seq<Row>, def: Definition, reply: Reply)
    requires sp.Valid() && ValidAccount(account) && IsListing(sp, account, rows) && Shadowed(sp, account, def.name)
    ensures EnsureDefinition(sp, account, rows, def, reply) ==
            Outcome(account, Failure("createCustomDataDefinition"),
                    [Create(sp.trim(def.name), def.fields, def.relationships)], [])
  {
    FoundOnListing(sp, account, rows, sp.Name(Some(def.name)));
    TrimmedAlike(sp, account, def.name);
  }

  /** The names in use after a definition was ensured: those before, and its own unless it was refused. */
  lemma NamesAfterEnsure(
      sp: Spelling, account: Account, rows: seq<Row>, def: Definition, reply: Reply, wanted: string, name: string)
    requires sp.Valid() && ValidAccount(account) && IsListing(sp, account, rows) && ValidReply(account, reply)
    ensures var after := EnsureDefinition(sp, account, rows, def, reply).account;
            && (HasRow(sp, after, wanted) <==>
                  HasRow(sp, account, wanted) ||
                  (wanted == sp.Name(Some(def.name)) && !Shadowed(sp, account, def.name)))
            && (NameTaken(sp, after, name) <==>
                  NameTaken(sp, account, name) || sp.apiKey(name) == sp.apiKey(def.name))
  {
    FoundOnListing(sp, account, rows, sp.Name(Some(def.name)));
    TrimmedAlike(sp, account, def.name);
    match FindDefinition(sp, rows, sp.Name(Some(def.name))) {
      case Some(found) => NamesAfterFound(sp, account, found.id, def, wanted, name);
      case None => NamesAfterNew(sp, account, def, reply, wanted, name);
    }
  }

  lemma NamesAfterFound(sp: Spelling, account: Account, id: int, def: Definition, wanted: string, name: string)
    requires sp.Valid() && Holds(sp, account, id, sp.Name(Some(def.name)))
    ensures var after := EnsureFound(sp, account, id, def, NoFault).account;
            && HasRow(sp, account, sp.Name(Some(def.name)))
            && (HasRow(sp, after, wanted) <==> HasRow(sp, account, wanted))
            && (NameTaken(sp, after, name) <==> NameTaken(sp, account, name))
            && (sp.apiKey(name) == sp.apiKey(def.name) ==> NameTaken(sp, account, name))
  {
    FoundGrows(sp, account, id, def);
    HeldIsTaken(sp, account, id, def.name);
    var after := EnsureFound(sp, account, id, def, NoFault).account;
    assert forall other :: Holds(sp, after, other, wanted) <==> Holds(sp, account, other, wanted);
    assert forall other :: Clashes(sp, after, other, name) <==> Clashes(sp, account, other, name);
    assert sp.apiKey(name) == sp.apiKey(def.name) ==> Clashes(sp, account, id, name);
  }

  lemma NamesAfterNew(
      sp: Spelling, account: Account, def: Definition, reply: Reply, wanted: string, name: string)
    requires sp.Valid() && ValidReply(account, reply) && !HasRow(sp, account, sp.Name(Some(def.name)))
    ensures var after := EnsureNew(sp, account, def, reply, NoFault).account;
            && (HasRow(sp, after, wanted) <==>
                  HasRow(sp, account, wanted) ||
                  (wanted == sp.Name(Some(def.name)) && !NameTaken(sp, account, def.name)))
            && (NameTaken(sp, after, name) <==>
                  NameTaken(sp, account, name) || sp.apiKey(name) == sp.apiKey(def.name))
  {
    TrimmedAlike(sp, account, def.name);
    var after := EnsureNew(sp, account, def, reply, NoFault).account;
    if NameTaken(sp, account, def.name) {
      var id :| id in account && Clashes(sp, account, id, def.name);
      assert sp.apiKey(name) == sp.apiKey(def.name) ==> Clashes(sp, account, id, name);
    } else {
      assert forall other :: Holds(sp, after, other, wanted) <==>
               Holds(sp, account, other, wanted) || (other == reply.id && wanted == sp.Name(Some(def.name)));
      assert forall other :: Clashes(sp, after, other, name) <==>
               Clashes(sp, account, other, name) || (other == reply.id && sp.apiKey(def.name) == sp.apiKey(name));
    }
  }

  /** A shadowed definition stays shadowed, whatever else is ensured. */
  lemma ShadowStays(
      sp: Spelling, account: Account, rows: seq<Row>, def: Definition, reply: Reply, name: string)
    requires sp.Valid() && ValidAccount(account) && IsListing(sp, account, rows) && ValidReply(account, reply)
    requires Shadowed(sp, account, name)
    ensures Shadowed(sp, EnsureDefinition(sp, account, rows, def, reply).account, name)
  {
    NamesAfterEnsure(sp, account, rows, def, reply, sp.Name(Some(name)), name);
    if sp.Name(Some(name)) == sp.Name(Some(def.name)) {
      SameNameSameShadow(sp, account, name, def.name);
    }
  }

  lemma SameNameSameShadow(sp: Spelling, account: Account, a: string, b: string)
    requires sp.Valid() && sp.Name(Some(a)) == sp.Name(Some(b))
    ensures NameTaken(sp, account, a) <==> NameTaken(sp, account, b)
    ensures Shadowed(sp, account, a) <==> Shadowed(sp, account, b)
  {
    assert sp.apiKey(a) == sp.apiKey(b);
    assert forall id :: Clashes(sp, account, id, a) <==> Clashes(sp, account, id, b);
  }

  lemma FoundSettles(sp: Spelling, account: Account, id: int, def: Definition)
    requires ValidAccount(account) && Chosen(sp, account, id, sp.Name(Some(def.name)))
    ensures var out := EnsureFound(sp, account, id, def, NoFault);
            && out.id == Success(id)
            && ValidAccount(out.account)
            && Grows(account, out.account)
            && Settled(sp, out.account, def, id)
  {
    var out := EnsureFound(sp, account, id, def, NoFault);
    FoundGrows(sp, account, id, def);
    ChosenSurvives(sp, account, out.account, id, sp.Name(Some(def.name)));
  }

  lemma FoundGrows(sp: Spelling, account: Account, id: int, def: Definition)
    requires Live(account, id)
    ensures var out := EnsureFound(sp, account, id, def, NoFault);
            && out.id == Success(id) && out.account.Keys == account.Keys
            && Grows(account, out.account)
            && Covers(sp, out.account[id], def)
  {
    var full := account[id];
    var fields := MissingFields(def.fields, FieldNames(full.fields));
    var rels := MissingRelationships(sp, def.relationships, SourceFields(sp, full.relationships));
    ExtendCovers(sp, full, def);
    ExtendGrows(account, id, fields, rels);
    if fields == [] && rels == [] {
      assert full.(fields := full.fields + fields, relationships := full.relationships + rels) == full;
    }
  }

  lemma ExtendGrows(account: Account, id: int, fields: seq<Field>, rels: seq<Relationship>)
    requires id in account
    ensures var full := account[id];
            var extended := full.(fields := full.fields + fields, relationships := full.relationships + rels);
            && account[id := extended].Keys == account.Keys
            && Grows(account, account[id := extended])
    ensures Grows(account, account)
  {
  }

  lemma NewSettles(sp: Spelling, account: Account, def: Definition, reply: Reply)
    requires sp.Valid() && ValidAccount(account) && ValidReply(account, reply)
    requires !HasRow(sp, account, sp.Name(Some(def.name))) && !NameTaken(sp, account, sp.trim(def.name))
    ensures var out := EnsureNew(sp, account, def, reply, NoFault);
            && out.id == Success(reply.id)
            && ValidAccount(out.account)
            && Grows(account, out.account)
            && Settled(sp, out.account, def, reply.id)
  {
    var wanted := sp.Name(Some(def.name));
    assert sp.trim(sp.trim(def.name)) == sp.trim(def.name);
    var out := EnsureNew(sp, account, def, reply, NoFault);
    forall other | other in out.account && Holds(sp, out.account, other, wanted)
      ensures other == reply.id
    {
      assert other != reply.id ==> Holds(sp, account, other, wanted);
    }
    DeclarationCoversItself(sp, def, sp.trim(def.name), reply.status);
  }

  lemma CoversSurvives(sp: Spelling, before: Stored, after: Stored, def: Definition)
    requires Covers(sp, before, def) && before.fields <= after.fields && before.relationships <= after.relationships
    ensures Covers(sp, after, def)
  {
    forall f | f in def.fields ensures HasField(after.fields, f.name) {
      FieldsAppended(before.fields, after.fields[|before.fields|..], f.name);
      assert before.fields + after.fields[|before.fields|..] == after.fields;
    }
    forall r | r in def.relationships ensures HasSource(sp, after.relationships, sp.trim(r.sourceField)) {
      SourcesAppended(sp, before.relationships, after.relationships[|before.relationships|..], sp.trim(r.sourceField));
      assert before.relationships + after.relationships[|before.relationships|..] == after.relationships;
    }
  }

  /** Ensuring any other definition leaves a settled one settled, under the same id. */
  lemma EnsureKeepsSettled(
      sp: Spelling, account: Account, rows: seq<Row>, def: Definition, reply: Reply,
      other: Definition, id: int)
    requires sp.Valid() && ValidAccount(account) && IsListing(sp, account, rows) && ValidReply(account, reply)
    requires Settled(sp, account, other, id)
    ensures Settled(sp, EnsureDefinition(sp, account, rows, def, reply).account, other, id)
  {
    var wanted := sp.Name(Some(def.name));
    var out := EnsureDefinition(sp, account, rows, def, reply);
    FoundOnListing(sp, account, rows, wanted);
    EnsureSettles(sp, account, rows, def, reply);
    if FindDefinition(sp, rows, wanted).None? {
      assert sp.trim(sp.trim(def.name)) == sp.trim(def.name);
      assert !Holds(sp, account, id, wanted);
    }
    ChosenSurvives(sp, account, out.account, id, sp.Name(Some(other.name)));
    CoversSurvives(sp, account[id], out.account[id], other);
  }

  /**
   * Whichever call fails, and whether or not the API carried a failed write out, what the account holds
   * stays, and settled definitions stay settled.
   */
  lemma FaultsLoseNothing(
      sp: Spelling, account: Account, rows: seq<Row>, def: Definition, reply: Reply, fault: Fault,
      other: Definition, id: int)
    requires sp.Valid() && ValidAccount(account) && IsListing(sp, account, rows) && ValidReply(account, reply)
    ensures var out := EnsureWith(sp, account, rows, def, reply, fault);
            && ValidAccount(out.account) && Grows(account, out.account)
            && (Settled(sp, account, other, id) ==> Settled(sp, out.account, other, id))
  {
    var out := EnsureWith(sp, account, rows, def, reply, fault);
    assert out.account == account || out.account == EnsureDefinition(sp, account, rows, def, reply).account;
    EnsureSettles(sp, account, rows, def, reply);
    if Settled(sp, account, other, id) {
      EnsureKeepsSettled(sp, account, rows, def, reply, other, id);
    }
  }

  lemma NothingMissing(sp: Spelling, full: Stored, def: Definition)
    requires Covers(sp, full, def) && NoBlanks(sp, def)
    ensures MissingFields(def.fields, FieldNames(full.fields)) == []
    ensures MissingRelationships(sp, def.relationships, SourceFields(sp, full.relationships)) == []
  {
    forall f | f in def.fields ensures f.name in FieldNames(full.fields) {
      assert HasField(full.fields, f.name);
    }
    forall r | r in def.relationships ensures sp.trim(r.sourceField) in SourceFields(sp, full.relationships) {
      assert HasSource(sp, full.relationships, sp.trim(r.sourceField));
    }
  }

  /**
   * Ensuring a settled definition returns its id; it is silent exactly when the declaration has no
   * blank field name and no blank source field, since those are never recognised as present.
   */
  lemma SettledIsQuiet(sp: Spelling, account: Account, rows: seq<Row>, def: Definition, reply: Reply, id: int)
    requires ValidAccount(account) && IsListing(sp, account, rows) && Settled(sp, account, def, id)
    ensures EnsureDefinition(sp, account, rows, def, reply).id == Success(id)
    ensures EnsureDefinition(sp, account, rows, def, reply).writes == [] <==> NoBlanks(sp, def)
    ensures EnsureDefinition(sp, account, rows, def, reply).writes == [] ==>
              EnsureDefinition(sp, account, rows, def, reply).account == account
  {
    var wanted := sp.Name(Some(def.name));
    FoundOnListing(sp, account, rows, wanted);
    var found := FindDefinition(sp, rows, wanted);
    assert Holds(sp, account, id, wanted);
    ChosenIsUnique(sp, account, found.value.id, id, wanted);
    MissingExactlyBlanks(sp, account[id], def);
  }

  /** Of what a definition already covers, blanks and nothing else count as missing. */
  lemma MissingExactlyBlanks(sp: Spelling, full: Stored, def: Definition)
    requires Covers(sp, full, def)
    ensures MissingFields(def.fields, FieldNames(full.fields)) == [] &&
            MissingRelationships(sp, def.relationships, SourceFields(sp, full.relationships)) == [] <==>
            NoBlanks(sp, def)
  {
    var fields := MissingFields(def.fields, FieldNames(full.fields));
    var rels := MissingRelationships(sp, def.relationships, SourceFields(sp, full.relationships));
    if NoBlanks(sp, def) {
      NothingMissing(sp, full, def);
    } else if f :| f in def.fields && f.name == "" {
      assert f in fields;
    } else {
      var k :| 0 <= k < |def.relationships| && sp.trim(def.relationships[k].sourceField) == "";
      assert def.relationships[k] in rels;
    }
  }

  /**
   * Provisioning a definition converges: a second identical call, against the account the first
   * one left and under any listing order, ends in the same id or the same refusal. It sends no create
   * and no extend exactly when the declaration has no blanks and is not shadowed.
   */
  lemma EnsureConverges(
      sp: Spelling, account: Account, rows: seq<Row>, def: Definition, reply: Reply,
      rowsAgain: seq<Row>, replyAgain: Reply)
    requires sp.Valid() && ValidAccount(account) && IsListing(sp, account, rows) && ValidReply(account, reply)
    requires IsListing(sp, EnsureDefinition(sp, account, rows, def, reply).account, rowsAgain)
    ensures var first := EnsureDefinition(sp, account, rows, def, reply);
            var second := EnsureDefinition(sp, first.account, rowsAgain, def, replyAgain);
            && second.id == first.id
            && (first.id.Success? <==> !Shadowed(sp, account, def.name))
            && (second.writes == [] <==> NoBlanks(sp, def) && !Shadowed(sp, account, def.name))
            && (second.writes == [] ==> second.account == first.account)
  {
    EnsureSettles(sp, account, rows, def, reply);
    var first := EnsureDefinition(sp, account, rows, def, reply);
    if Shadowed(sp, account, def.name) {
      ShadowedIsRefused(sp, account, rows, def, reply);
      ShadowedIsRefused(sp, account, rowsAgain, def, replyAgain);
    } else {
      SettledIsQuiet(sp, first.account, rowsAgain, def, replyAgain, first.id.value);
    }
  }

  // ---- A name that differs by an accent ------------------------------------------------------------

  /**
   * With a single live definition whose name differs for the kit but not for the API, a definition is
   * never provisioned, blanks or no blanks: the create goes out on every run and is refused.
   */
  lemma HomonymIsRefused(sp: Spelling, id: int, stored: Stored, def: Definition, rows: seq<Row>, reply: Reply)
    requires sp.Valid() && id > 0 && stored.status != Deleted && IsListing(sp, map[id := stored], rows)
    requires sp.Name(Some(stored.name)) != sp.Name(Some(def.name)) && sp.apiKey(stored.name) == sp.apiKey(def.name)
    ensures Shadowed(sp, map[id := stored], def.name)
    ensures EnsureDefinition(sp, map[id := stored], rows, def, reply).id.Failure?
    ensures EnsureDefinition(sp, map[id := stored], rows, def, reply).account == map[id := stored]
    ensures EnsureDefinition(sp, map[id := stored], rows, def, reply).writes != []
  {
    assert Clashes(sp, map[id := stored], id, def.name);
    ShadowedIsRefused(sp, map[id := stored], rows, def, reply);
  }

  const PLAIN_E: char -> char := c => if c == '\U{E9}' then 'e' else c

  /** A text without capitals and without outer white space. */
  predicate IsPlain(s: string) {
    s != "" && !IsSpace(s[0]) && !IsSpace(s[|s| - 1]) && forall i :: 0 <= i < |s| ==> !('A' <= s[i] <= 'Z')
  }

  lemma PlainText(s: string)
    requires IsPlain(s)
    ensures Lower(Trim(s)) == s
  {
    assert Trim(s) == s;
  }

  /** Two plain names that differ in letters the API folds together are such a pair. */
  lemma HomonymPair(name: string, other: string, fold: char -> char)
    requires IsPlain(name) && IsPlain(other) && name != other && FoldedText(name, fold) == FoldedText(other, fold)
    ensures var sp := KitSpelling(fold);
            && sp.Valid()
            && sp.Name(Some(other)) != sp.Name(Some(name))
            && sp.apiKey(other) == sp.apiKey(name)
  {
    KitSpellingValid(fold);
    PlainText(name);
    PlainText(other);
  }

  /** "caf" with a plain and with an accented last letter: different for the kit, alike for the API. */
  lemma AccentHomonym(stem: string, name: string, other: string)
    requires stem == ['c', 'a', 'f'] && name == stem + ['e'] && other == stem + ['\U{E9}']
    ensures var sp := KitSpelling(PLAIN_E);
            && sp.Valid()
            && sp.Name(Some(other)) != sp.Name(Some(name))
            && sp.apiKey(other) == sp.apiKey(name)
  {
    assert IsPlain(name) && IsPlain(other);
    assert name[3] != other[3];
    assert FoldedText(name, PLAIN_E) == FoldedText(other, PLAIN_E);
    HomonymPair(name, other, PLAIN_E);
  }

  // ---- Stale links -------------------------------------------------------------------------------

  /** The stored link on the relationship's source field, if both ends are ids, goes where the plan wants it. */
  ghost predicate LinkIsRight(sp: Spelling, r: Relationship, stored: seq<Relationship>) {
    exists i :: 0 <= i < |stored| && IsFirstOn(sp, stored, i, r.sourceField) &&
      (IsNumeric(sp.trim(stored[i].targetSchema)) && IsNumeric(sp.trim(r.targetSchema)) ==>
         sp.trim(stored[i].targetSchema) == sp.trim(r.targetSchema))
  }

  ghost predicate IsFirstOn(sp: Spelling, stored: seq<Relationship>, i: nat, sourceField: string)
    requires i < |stored|
  {
    && sp.trim(stored[i].sourceField) == sp.trim(sourceField)
    && forall j :: 0 <= j < i ==> sp.trim(stored[j].sourceField) != sp.trim(sourceField)
  }

  lemma {:induction false} StoredOnIsFirst(sp: Spelling, stored: seq<Relationship>, i: nat, sourceField: string)
    requires i < |stored| && IsFirstOn(sp, stored, i, sourceField)
    ensures StoredOn(sp, stored, sourceField) == Some(stored[i])
  {
    if i > 0 {
      assert forall j :: 0 <= j < i - 1 ==> stored[1..][j] == stored[j + 1];
      StoredOnIsFirst(sp, stored[1..], i - 1, sourceField);
    }
  }

  lemma {:induction false} FindFirstOn(sp: Spelling, stored: seq<Relationship>, sourceField: string) returns (i: nat)
    requires HasSource(sp, stored, sp.trim(sourceField))
    ensures i < |stored| && IsFirstOn(sp, stored, i, sourceField)
  {
    if sp.trim(stored[0].sourceField) == sp.trim(sourceField) {
      i := 0;
    } else {
      var k :| 0 <= k < |stored| && sp.trim(stored[k].sourceField) == sp.trim(sourceField);
      assert stored[1..][k - 1] == stored[k];
      i := FindFirstOn(sp, stored[1..], sourceField);
      assert forall j :: 0 < j <= i ==> stored[1..][j - 1] == stored[j];
      i := i + 1;
    }
  }

  /**
   * On a stored definition that covers the plan nothing is reported exactly when every custom link
   * goes where the plan wants it: a link to a definition that was deleted and made anew never passes
   * in silence.
   */
  lemma NothingReportedExactlyWhenLinksAreRight(sp: Spelling, stored: Stored, def: Definition)
    requires Covers(sp, stored, def)
    ensures StaleOnes(sp, def.relationships, stored.relationships) == [] <==>
            forall k :: 0 <= k < |def.relationships| && def.relationships[k].kind == Custom ==>
              LinkIsRight(sp, def.relationships[k], stored.relationships)
  {
    NoneStale(sp, def.relationships, stored.relationships);
    forall k | 0 <= k < |def.relationships| && def.relationships[k].kind == Custom
      ensures IsStale(sp, def.relationships[k], stored.relationships) <==>
              !LinkIsRight(sp, def.relationships[k], stored.relationships)
    {
      StaleMeansWrong(sp, def.relationships[k], stored.relationships);
    }
  }

  lemma StaleMeansWrong(sp: Spelling, r: Relationship, stored: seq<Relationship>)
    requires r.kind == Custom && HasSource(sp, stored, sp.trim(r.sourceField))
    ensures IsStale(sp, r, stored) <==> !LinkIsRight(sp, r, stored)
  {
    var i := FindFirstOn(sp, stored, r.sourceField);
    StoredOnIsFirst(sp, stored, i, r.sourceField);
    forall j: nat | j < |stored| && IsFirstOn(sp, stored, j, r.sourceField) ensures j == i {
    }
  }

  lemma {:induction false} NoneStale(sp: Spelling, rels: seq<Relationship>, stored: seq<Relationship>)
    ensures StaleOnes(sp, rels, stored) == [] <==> forall k :: 0 <= k < |rels| ==> !IsStale(sp, rels[k], stored)
  {
    if rels != [] {
      NoneStale(sp, rels[..|rels| - 1], stored);
    }
  }

  /** One or more decimal digits. */
  predicate AllDigits(s: string) {
    |s| > 0 && forall i :: 0 <= i < |s| ==> s[i] in {'0', '1', '2', '3', '4', '5', '6', '7', '8', '9'}
  }

  /** Both ends of the first stored link on the field are ids, and they are different ones. */
  ghost predicate PointsElsewhere(sp: Spelling, r: Relationship, stored: seq<Relationship>) {
    exists i :: 0 <= i < |stored| && IsFirstOn(sp, stored, i, r.sourceField) &&
      AllDigits(sp.trim(stored[i].targetSchema)) && AllDigits(sp.trim(r.targetSchema)) &&
      sp.trim(stored[i].targetSchema) != sp.trim(r.targetSchema)
  }

  lemma StaleExactly(sp: Spelling, r: Relationship, stored: seq<Relationship>)
    ensures IsStale(sp, r, stored) <==> r.kind == Custom && PointsElsewhere(sp, r, stored)
  {
    if HasSource(sp, stored, sp.trim(r.sourceField)) {
      var i := FindFirstOn(sp, stored, r.sourceField);
      StoredOnIsFirst(sp, stored, i, r.sourceField);
      forall j: nat | j < |stored| && IsFirstOn(sp, stored, j, r.sourceField) ensures j == i {
      }
      DigitsAreDigits(sp.trim(stored[i].targetSchema));
      DigitsAreDigits(sp.trim(r.targetSchema));
    } else {
      StoredHasSource(sp, stored, r.sourceField);
    }
  }

  lemma DigitsAreDigits(s: string)
    ensures AllDigits(s) <==> IsNumeric(s)
  {
    forall c: char
      ensures IsDigit(c) <==> c in {'0', '1', '2', '3', '4', '5', '6', '7', '8', '9'}
    {
    }
  }

  lemma StoredHasSource(sp: Spelling, stored: seq<Relationship>, sourceField: string)
    ensures StoredOn(sp, stored, sourceField).Some? ==> HasSource(sp, stored, sp.trim(sourceField))
  {
    if StoredOn(sp, stored, sourceField).Some? {
      var i :| 0 <= i < |stored| && stored[i] == StoredOn(sp, stored, sourceField).value;
      assert sp.trim(stored[i].sourceField) == sp.trim(sourceField);
    }
  }

  lemma {:induction false} StaleMembers(
      sp: Spelling, rels: seq<Relationship>, stored: seq<Relationship>, r: Relationship)
    ensures r in StaleOnes(sp, rels, stored) <==> r in rels && IsStale(sp, r, stored)
  {
    if rels != [] {
      StaleMembers(sp, rels[..|rels| - 1], stored, r);
      assert rels == rels[..|rels| - 1] + [rels[|rels| - 1]];
    }
  }

  /**
   * What an ensure reports when the definition is found and can be read, whatever then becomes of the
   * write: the declared custom relationships whose stored link points at another definition, and no others.
   */
  lemma ReportedExactly(
      sp: Spelling, account: Account, rows: seq<Row>, def: Definition, reply: Reply, fault: Fault, id: int,
      r: Relationship)
    requires ValidAccount(account) && IsListing(sp, account, rows) && !fault.ReadFails?
    requires Chosen(sp, account, id, sp.Name(Some(def.name)))
    ensures r in EnsureWith(sp, account, rows, def, reply, fault).problems <==>
            r in def.relationships && r.kind == Custom && PointsElsewhere(sp, r, account[id].relationships)
  {
    FoundIsChosen(sp, account, rows, def, id);
    StaleMembers(sp, def.relationships, account[id].relationships, r);
    StaleExactly(sp, r, account[id].relationships);
  }

  lemma FoundIsChosen(sp: Spelling, account: Account, rows: seq<Row>, def: Definition, id: int)
    requires ValidAccount(account) && IsListing(sp, account, rows)
    requires Chosen(sp, account, id, sp.Name(Some(def.name)))
    ensures FindDefinition(sp, rows, sp.Name(Some(def.name))).Some?
    ensures FindDefinition(sp, rows, sp.Name(Some(def.name))).value.id == id
  {
    FoundOnListing(sp, account, rows, sp.Name(Some(def.name)));
    assert Holds(sp, account, id, sp.Name(Some(def.name)));
    ChosenIsUnique(sp, account, FindDefinition(sp, rows, sp.Name(Some(def.name))).value.id, id,
                   sp.Name(Some(def.name)));
  }

  // ---- What is sent ------------------------------------------------------------------------------

  /** No stored field of that name, or no name at all. */
  ghost predicate LacksField(stored: seq<Field>, name: string) {
    name == "" || forall i :: 0 <= i < |stored| ==> stored[i].name != name
  }

  ghost predicate LacksSource(sp: Spelling, stored: seq<Relationship>, sourceField: string) {
    sourceField == "" || forall i :: 0 <= i < |stored| ==> sp.trim(stored[i].sourceField) != sourceField
  }

  /**
   * An extend is sent for the chosen definition only. It holds exactly the declared fields and
   * relationships that the stored definition lacks, and those are what the account gains.
   */
  lemma ExtendSendsWhatIsMissing(
      sp: Spelling, account: Account, rows: seq<Row>, def: Definition, reply: Reply, id: int, write: Write)
    requires ValidAccount(account) && IsListing(sp, account, rows)
    requires Chosen(sp, account, id, sp.Name(Some(def.name)))
    requires write in EnsureDefinition(sp, account, rows, def, reply).writes
    ensures EnsureDefinition(sp, account, rows, def, reply).writes == [write] && write.Extend? && write.id == id
    ensures forall f :: f in write.fields <==> f in def.fields && LacksField(account[id].fields, f.name)
    ensures forall r :: r in write.relationships <==>
              r in def.relationships && LacksSource(sp, account[id].relationships, sp.trim(r.sourceField))
    ensures var full := account[id];
            EnsureDefinition(sp, account, rows, def, reply).account ==
            account[id := Stored(full.name, full.status, full.fields + write.fields,
                                 full.relationships + write.relationships)]
  {
    FoundIsChosen(sp, account, rows, def, id);
    var full := account[id];
    forall f: Field ensures f.name !in FieldNames(full.fields) <==> LacksField(full.fields, f.name) {
    }
    forall r: Relationship
      ensures sp.trim(r.sourceField) !in SourceFields(sp, full.relationships) <==>
              LacksSource(sp, full.relationships, sp.trim(r.sourceField))
    {
    }
  }

  /** Without a row of the name a create is sent, under the trimmed name, with all that is declared. */
  lemma CreatedAsDeclared(sp: Spelling, account: Account, rows: seq<Row>, def: Definition, reply: Reply)
    requires ValidAccount(account) && IsListing(sp, account, rows)
    requires !HasRow(sp, account, sp.Name(Some(def.name)))
    ensures var out := EnsureDefinition(sp, account, rows, def, reply);
            && out.writes == [Create(sp.trim(def.name), def.fields, def.relationships)] && out.problems == []
            && (out.id.Success? ==>
                  && out.id.value == reply.id
                  && out.account == account[reply.id := Stored(sp.trim(def.name), reply.status, def.fields,
                                                                def.relationships)])
  {
    FoundOnListing(sp, account, rows, sp.Name(Some(def.name)));
  }

  // ---- Which row is chosen -----------------------------------------------------------------------

  /** A row with the wanted name and an id, whose status does not read as deleted. */
  ghost predicate Bears(sp: Spelling, row: Row, wanted: string, id: int) {
    && sp.lower(if row.name.Some? then sp.trim(row.name.value)
                else if row.schemaName.Some? then sp.trim(row.schemaName.value) else "") == wanted
    && id == (if row.idDefinition.Some? then row.idDefinition.value else if row.id.Some? then row.id.value else 0)
    && id > 0
    && ReadsAs(sp, row) != "deleted"
  }

  /** The status of a row as it reads: trimmed, in lower case, empty if there is none. */
  function ReadsAs(sp: Spelling, row: Row): string {
    sp.lower(if row.status.Some? then sp.trim(row.status.value) else "")
  }

  /** Two rows of which the kit would take the first: by what their statuses read as, then by id. */
  ghost predicate Preferred(sp: Spelling, a: Row, idA: int, b: Row, idB: int) {
    var (s, t) := (ReadsAs(sp, a), ReadsAs(sp, b));
    var (low, lower) := (t in {"inactive", "editing", "creating"}, t in {"editing", "creating"});
    if s in {"editing", "creating"} then lower && idA <= idB
    else if s == "inactive" then lower || (low && idA <= idB)
    else low || idA <= idB
  }

  /**
   * The chosen row bears the wanted name, and is preferred to every other that does: an active one, or
   * one of an unknown or absent status, to an inactive one, that to one being created or edited, and
   * among equals the lowest id. None is chosen only if none bears the name.
   */
  lemma ChosenIsPreferred(sp: Spelling, rows: seq<Row>, wanted: string)
    ensures match FindDefinition(sp, rows, wanted)
            case None => forall i, id :: 0 <= i < |rows| ==> !Bears(sp, rows[i], wanted, id)
            case Some(found) =>
              exists i :: 0 <= i < |rows| && Bears(sp, rows[i], wanted, found.id) &&
                forall j, id :: 0 <= j < |rows| && Bears(sp, rows[j], wanted, id) ==>
                  Preferred(sp, rows[i], found.id, rows[j], id)
  {
    FoundIsBest(sp, rows, wanted);
    forall i, id | 0 <= i < |rows|
      ensures Bears(sp, rows[i], wanted, id) <==> IsUsable(sp, rows[i], wanted) && RowId(rows[i]) == id
    {
      UsableBears(sp, rows[i], wanted, id);
    }
    match FindDefinition(sp, rows, wanted)
    case None =>
      forall i, id | 0 <= i < |rows| ensures !Bears(sp, rows[i], wanted, id) {
        assert !Offered(sp, rows, wanted, CandidateOf(sp, rows[i]));
      }
    case Some(found) =>
      var i :| 0 <= i < |rows| && IsUsable(sp, rows[i], wanted) && CandidateOf(sp, rows[i]) == found;
      forall j, id | 0 <= j < |rows| && Bears(sp, rows[j], wanted, id)
        ensures Preferred(sp, rows[i], found.id, rows[j], id)
      {
        assert Offered(sp, rows, wanted, CandidateOf(sp, rows[j]));
        PreferredUnlessBefore(sp, rows[i], rows[j]);
      }
  }

  lemma UsableBears(sp: Spelling, row: Row, wanted: string, id: int)
    ensures Bears(sp, row, wanted, id) <==> IsUsable(sp, row, wanted) && RowId(row) == id
  {
  }

  lemma PreferredUnlessBefore(sp: Spelling, a: Row, b: Row)
    ensures Preferred(sp, a, RowId(a), b, RowId(b)) <==> !Before(CandidateOf(sp, b), CandidateOf(sp, a))
  {
  }

  /**
   * What a failing call comes to. A definition that cannot be read gets no id, no report and no write. A
   * write that fails was sent, and costs the id, but not the reports made before it; where there was
   * nothing to write, nothing fails.
   */
  lemma FaultsExactly(
      sp: Spelling, account: Account, rows: seq<Row>, def: Definition, reply: Reply, fault: Fault)
    ensures var good, out := EnsureDefinition(sp, account, rows, def, reply),
                             EnsureWith(sp, account, rows, def, reply, fault);
            && (fault.ReadFails? && FindDefinition(sp, rows, sp.Name(Some(def.name))).Some? ==>
                  out.id.Failure? && out.account == account && out.writes == [] && out.problems == [])
            && (fault.WriteFails? ==>
                  && out.writes == good.writes && out.problems == good.problems
                  && (out.id.Success? <==> good.id.Success? && good.writes == [])
                  && out.account == if fault.applied then good.account else account)
  {
  }
}
