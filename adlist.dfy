/**
 * `pihole_adlist`: keeps one row of Pi-hole's `adlist` table (in the
 * gravity database inside a container) present or absent.
 *
 * The table is a `GravityDb` object: rows keyed by address, the next
 * fresh id, and the statements run so far. The module never hands it
 * values, only SQL literal text; the table reads `''` back as `'`, exactly
 * as SQLite does. `Reconcile` follows `main` step by step and is proved to
 * do what the pure `ReconcileSpec` describes; the properties are lemmas
 * about `ReconcileSpec` and the parts it is made of.
 */
module Adlist {
  import opened Wrappers
  import Text
  import Seqs

  // ---------------------------------------------------------------------
  // SQL string literals

  /** The number of single quotes in `s`. */
  function Quotes(s: string): nat {
    if s == "" then 0 else (if s[0] == '\'' then 1 else 0) + Quotes(s[1..])
  }

  /** `s.replace("'", "''")`: the body of a SQL string literal holding `s`. */
  function Escape(s: string): (r: string)
    ensures |r| == |s| + Quotes(s)
  {
    if s == "" then "" else (if s[0] == '\'' then "''" else [s[0]]) + Escape(s[1..])
  }

  /**
   * What SQLite reads from the text between two quotes: `''` stands for
   * one quote, and a lone quote ends the literal early, which the model
   * treats as a statement SQLite rejects.
   */
  function Unescape(t: string): Option<string>
    decreases |t|
  {
    if t == "" then Some("")
    else if t[0] != '\'' then
      match Unescape(t[1..])
      case None => None
      case Some(s) => Some([t[0]] + s)
    else if |t| >= 2 && t[1] == '\'' then
      match Unescape(t[2..])
      case None => None
      case Some(s) => Some("'" + s)
    else None
  }

  /** Collapsing `''` back to `'` recovers the escaped text. */
  lemma {:induction false} EscapeRoundTrip(s: string)
    ensures Unescape(Escape(s)) == Some(s)
  {
    if s != "" {
      EscapeRoundTrip(s[1..]);
      var head := if s[0] == '\'' then "''" else [s[0]];
      assert Escape(s) == head + Escape(s[1..]);
      if s[0] == '\'' {
        assert (head + Escape(s[1..]))[2..] == Escape(s[1..]);
      } else {
        assert (head + Escape(s[1..]))[1..] == Escape(s[1..]);
      }
      assert [s[0]] + s[1..] == s;
    }
  }

  /** Every literal SQLite accepts is the escape of what it reads. */
  lemma {:induction false} UnescapeInverse(t: string, s: string)
    requires Unescape(t) == Some(s)
    ensures Escape(s) == t
    decreases |t|
  {
    if t != "" {
      if t[0] != '\'' {
        var rest := Unescape(t[1..]).value;
        UnescapeInverse(t[1..], rest);
        assert s == [t[0]] + rest;
        assert s[1..] == rest;
        assert t == [t[0]] + t[1..];
      } else {
        var rest := Unescape(t[2..]).value;
        UnescapeInverse(t[2..], rest);
        assert s == "'" + rest;
        assert s[1..] == rest;
        assert t == "''" + t[2..];
      }
    }
  }

  lemma {:induction false} NoQuotes(s: string)
    ensures Quotes(s) == 0 <==> '\'' !in s
  {
    if s != "" {
      NoQuotes(s[1..]);
      assert s == [s[0]] + s[1..];
    }
  }

  /** Text is read back as itself exactly when it holds no single quote. */
  lemma LiteralIsItself(t: string)
    ensures Unescape(t) == Some(t) <==> '\'' !in t
  {
    NoQuotes(t);
    if Unescape(t) == Some(t) {
      UnescapeInverse(t, t);
    } else if '\'' !in t {
      EscapeNoQuotes(t);
      EscapeRoundTrip(t);
    }
  }

  lemma {:induction false} EscapeNoQuotes(s: string)
    requires '\'' !in s
    ensures Escape(s) == s
  {
    if s != "" {
      assert s[1..] <= s[1..];
      assert forall i | 0 <= i < |s[1..]| :: s[1..][i] == s[i + 1];
      EscapeNoQuotes(s[1..]);
      assert s == [s[0]] + s[1..];
    }
  }

  // ---------------------------------------------------------------------
  // The table

  /** One row of `adlist` (its other columns are not used by the module). */
  datatype Row = Row(id: nat, enabled: bool, comment: string, added: int, modified: int)

  /** The rows keyed by `address` (the column is unique) and the id the next insert gets. */
  datatype Table = Table(rows: map<string, Row>, nextId: nat)

  /** Ids are unique and below the next fresh id. */
  ghost predicate Valid(t: Table) {
    && (forall a | a in t.rows :: t.rows[a].id < t.nextId)
    && (forall a, b | a in t.rows && b in t.rows && a != b :: t.rows[a].id != t.rows[b].id)
  }

  /** A statement as the module writes it; `address` and `comment` are literal text. */
  datatype Statement =
    | Select(address: string)
    | Insert(address: string, enabled: int, comment: string, stamp: int)
    | Update(id: int, enabled: int, comment: string, stamp: int)
    | Delete(id: int)

  /** `str(CalledProcessError)`, which is never empty. */
  type ErrorText = s: string | s != "" witness "error"

  /** How `sqlite3` prints a row in its default list mode. */
  function RowText(r: Row): string {
    Text.NatToString(r.id) + "|" + (if r.enabled then "1" else "0") + "|" + r.comment
  }

  function UpdateRows(rows: map<string, Row>, id: int, enabled: bool, comment: string, stamp: int): (r: map<string, Row>)
    ensures r.Keys == rows.Keys
  {
    map a | a in rows :: if rows[a].id == id then rows[a].(enabled := enabled, comment := comment, modified := stamp) else rows[a]
  }

  function DeleteRows(rows: map<string, Row>, id: int): (r: map<string, Row>)
    ensures r.Keys <= rows.Keys
  {
    map a | a in rows && rows[a].id != id :: rows[a]
  }

  /** What one `pihole-FTL sqlite3` call prints and leaves behind. */
  function Interpret(t: Table, stmt: Statement): (Option<string>, Table) {
    match stmt
    case Select(lit) =>
      (match Unescape(lit)
       case None => (None, t)
       case Some(a) => (Some(if a in t.rows then RowText(t.rows[a]) + "\n" else ""), t))
    case Insert(lit, en, clit, stamp) =>
      (match (Unescape(lit), Unescape(clit))
       case (Some(a), Some(c)) =>
         if a in t.rows then (None, t)
         else (Some(""), Table(t.rows[a := Row(t.nextId, en != 0, c, stamp, stamp)], t.nextId + 1))
       case _ => (None, t))
    case Update(id, en, clit, stamp) =>
      (match Unescape(clit)
       case None => (None, t)
       case Some(c) => (Some(""), Table(UpdateRows(t.rows, id, en != 0, c, stamp), t.nextId)))
    case Delete(id) => (Some(""), Table(DeleteRows(t.rows, id), t.nextId))
  }

  /** One `docker exec` call: what it prints, or the error when the container or SQLite refuses. */
  function Exec(t: Table, reachable: bool, error: ErrorText, stmt: Statement): (Result<string, ErrorText>, Table) {
    if !reachable then (Failure(error), t)
    else
      match Interpret(t, stmt)
      case (None, t') => (Failure(error), t')
      case (Some(out), t') => (Success(out), t')
  }

  /** `run_docker_exec` hands back the output stripped of surrounding whitespace. */
  function Stripped(r: Result<string, ErrorText>): Result<string, ErrorText> {
    if r.Success? then Success(Text.Strip(r.value)) else r
  }

  /** Every statement keeps ids unique and below the next fresh id. */
  lemma ExecKeepsValid(t: Table, reachable: bool, error: ErrorText, stmt: Statement)
    requires Valid(t)
    ensures Valid(Exec(t, reachable, error, stmt).1)
  {
    if reachable {
      match stmt
      case Select(_) =>
      case Insert(lit, en, clit, stamp) =>
        if Unescape(lit).Some? && Unescape(clit).Some? && Unescape(lit).value !in t.rows {
          InsertKeepsValid(t, Unescape(lit).value, Row(t.nextId, en != 0, Unescape(clit).value, stamp, stamp));
        }
      case Update(id, en, clit, stamp) =>
        if Unescape(clit).Some? {
          UpdateKeepsValid(t, id, en != 0, Unescape(clit).value, stamp);
        }
      case Delete(id) =>
    }
  }

  lemma InsertKeepsValid(t: Table, a: string, row: Row)
    requires Valid(t) && a !in t.rows && row.id == t.nextId
    ensures Valid(Table(t.rows[a := row], t.nextId + 1))
  {
  }

  lemma UpdateKeepsValid(t: Table, id: int, enabled: bool, comment: string, stamp: int)
    requires Valid(t)
    ensures Valid(Table(UpdateRows(t.rows, id, enabled, comment, stamp), t.nextId))
  {
    var rows := UpdateRows(t.rows, id, enabled, comment, stamp);
    assert forall a | a in rows :: rows[a].id == t.rows[a].id;
  }

  // ---------------------------------------------------------------------
  // Reading a row back

  /** What `check_adlist_exists` returns when it does not fail. */
  datatype Existing = Missing | Exists(id: int, enabled: bool, comment: string)

  /** Why `check_adlist_exists` did not return a row: the command failed, or the parse raised. */
  datatype LookupError = ExecError(text: ErrorText) | ParseError

  /** The `id|enabled|comment` parse; `ParseError` is the exception `int()` or the indexing raises. */
  function ParseListing(out: string): (r: Result<Existing, LookupError>)
    ensures r == Success(Missing) <==> out == ""
    ensures r.Success? && r.value.Exists? ==> '|' !in r.value.comment
  {
    if out == "" then Success(Missing)
    else
      var parts := Text.Split(out, '|');
      if |parts| < 2 then Failure(ParseError)
      else
        match (Text.ParseInt(parts[0]), Text.ParseInt(parts[1]))
        case (Some(id), Some(en)) => Success(Exists(id, en != 0, if |parts| > 2 then parts[2] else ""))
        case _ => Failure(ParseError)
  }

  /** The comment as the module reads it back: trailing whitespace and everything from the first `|` are lost. */
  function ReadBack(comment: string): string {
    Text.Split(Text.StripEnd(comment), '|')[0]
  }

  /** A comment survives the round trip exactly when it has no `|` and no trailing whitespace. */
  lemma ReadBackIsItself(comment: string)
    ensures ReadBack(comment) == comment <==> '|' !in comment && Text.StripEnd(comment) == comment
  {
    var stripped := Text.StripEnd(comment);
    Text.SplitFirst(stripped, '|');
    if '|' !in comment && stripped == comment {
      Text.SplitWhole(comment, '|');
    }
  }

  /** A printed row is always parsed, as its id, its flag and the read-back comment. */
  lemma ListingRoundTrip(r: Row)
    ensures ParseListing(Text.Strip(RowText(r) + "\n")) == Success(Exists(r.id, r.enabled, ReadBack(r.comment)))
  {
    var idText := Text.NatToString(r.id);
    var flag := if r.enabled then "1" else "0";
    PrintedRow(idText, flag, r.comment);
    var out := idText + "|" + flag + "|" + Text.StripEnd(r.comment);
    assert Text.Strip(RowText(r) + "\n") == out;
    ListingParts(idText, flag, Text.StripEnd(r.comment));
    var parts := Text.Split(out, '|');
    assert parts[0] == idText && parts[1] == flag && |parts| > 2 && parts[2] == ReadBack(r.comment);
    Text.ParseIntToString(r.id);
    ParseFlag(r.enabled);
    ParsedListing(out, r.id, if r.enabled then 1 else 0);
  }

  lemma ParsedListing(out: string, id: int, en: int)
    requires out != ""
    requires var parts := Text.Split(out, '|');
      |parts| > 2 && Text.ParseInt(parts[0]) == Some(id) && Text.ParseInt(parts[1]) == Some(en)
    ensures ParseListing(out) == Success(Exists(id, en != 0, Text.Split(out, '|')[2]))
  {
  }

  /** Stripping the printed line removes the newline and the comment's trailing whitespace only. */
  lemma PrintedRow(idText: string, flag: string, comment: string)
    requires idText != "" && Text.IsDigit(idText[0])
    ensures Text.Strip(idText + "|" + flag + "|" + comment + "\n") == idText + "|" + flag + "|" + Text.StripEnd(comment)
  {
    var head := idText + "|" + flag + "|";
    assert head + comment + "\n" == head + (comment + "\n");
    assert head[|head| - 1] == '|';
    Text.StripEndAfter(head, comment + "\n");
    StripNewline(comment);
    var out := head + Text.StripEnd(comment);
    assert out[0] == idText[0];
    StartsWithDigit(out);
  }

  lemma StartsWithDigit(s: string)
    requires s != "" && Text.IsDigit(s[0])
    ensures Text.StripStart(s) == s
  {
  }

  lemma ParseFlag(enabled: bool)
    ensures Text.ParseInt(if enabled then "1" else "0") == Some(if enabled then 1 else 0)
  {
    var n := if enabled then 1 else 0;
    assert Text.IntToString(n) == (if enabled then "1" else "0");
    Text.ParseIntToString(n);
  }

  lemma StripNewline(s: string)
    ensures Text.StripEnd(s + "\n") == Text.StripEnd(s)
  {
    assert (s + "\n")[..|s|] == s;
  }

  lemma ListingParts(idText: string, flag: string, rest: string)
    requires '|' !in idText && '|' !in flag
    ensures Text.Split(idText + "|" + flag + "|" + rest, '|') == [idText, flag] + Text.Split(rest, '|')
  {
    Text.SplitField(flag, rest, '|');
    assert idText + "|" + flag + "|" + rest == idText + ['|'] + (flag + ['|'] + rest);
    Text.SplitField(idText, flag + ['|'] + rest, '|');
  }

  /** `check_adlist_exists`: the `SELECT` by the address as given, unescaped, then the parse. */
  function Lookup(t: Table, reachable: bool, error: ErrorText, url: string): Result<Existing, LookupError> {
    match Exec(t, reachable, error, Select(url)).0
    case Failure(e) => Failure(ExecError(e))
    case Success(out) => ParseListing(Text.Strip(out))
  }

  /** For an address without a quote the lookup finds exactly the stored row, with its comment as read back. */
  lemma LookupFinds(t: Table, error: ErrorText, url: string)
    requires '\'' !in url
    ensures Lookup(t, true, error, url)
         == Success(if url in t.rows then Exists(t.rows[url].id, t.rows[url].enabled, ReadBack(t.rows[url].comment)) else Missing)
  {
    LiteralIsItself(url);
    if url in t.rows {
      ListingRoundTrip(t.rows[url]);
    } else {
      Text.StripEmpty();
    }
  }

  // ---------------------------------------------------------------------
  // The decision

  datatype Params = Params(url: string, comment: string, enabled: bool, present: bool)

  datatype Action = AddRow | UpdateRow(id: int) | RemoveRow(id: int) | NoAction

  datatype Plan = Plan(action: Action, changed: bool, message: string)

  /** `comment if comment else url`. */
  function Label(p: Params): string {
    if p.comment != "" then p.comment else p.url
  }

  /** Whether an existing row differs from what is asked for, in the one way the module checks. */
  predicate NeedsUpdate(row: Existing, p: Params)
    requires row.Exists?
  {
    row.enabled != p.enabled || (p.comment != "" && row.comment != p.comment)
  }

  /** The branches of `main` after the lookup. */
  function Decide(existing: Existing, p: Params): (plan: Plan)
    ensures plan.changed <==> plan.action != NoAction
  {
    if p.present then
      match existing
      case Missing => Plan(AddRow, true, "Added adlist: " + Label(p))
      case Exists(id, _, _) =>
        if NeedsUpdate(existing, p) then Plan(UpdateRow(id), true, "Updated adlist: " + Label(p))
        else Plan(NoAction, false, "Adlist already present: " + Label(p))
    else
      match existing
      case Missing => Plan(NoAction, false, "Adlist already absent: " + Label(p))
      case Exists(id, _, _) => Plan(RemoveRow(id), true, "Removed adlist: " + Label(p))
  }

  /**
   * Present adds a missing row and updates an existing one exactly when the
   * flag differs or a non-empty comment differs; absent removes an existing
   * row and leaves a missing one alone. A row is always addressed by its id.
   */
  lemma DecideMeaning(existing: Existing, p: Params)
    ensures var a := Decide(existing, p).action;
      && (a == AddRow <==> p.present && existing.Missing?)
      && (a.UpdateRow? <==> p.present && existing.Exists?
                              && (existing.enabled != p.enabled || (p.comment != "" && existing.comment != p.comment)))
      && (a.RemoveRow? <==> !p.present && existing.Exists?)
      && (a.UpdateRow? || a.RemoveRow? ==> a.id == existing.id)
  {
  }

  /** An empty comment never causes an update by itself. */
  lemma EmptyCommentNeverUpdates(existing: Existing, p: Params)
    requires p.present && p.comment == "" && existing.Exists? && existing.enabled == p.enabled
    ensures Decide(existing, p).action == NoAction && !Decide(existing, p).changed
  {
  }

  /** The statement an action runs; quotes in the address and comment are doubled. */
  function ActionStatement(a: Action, p: Params, now: int): Statement
    requires a != NoAction
  {
    var flag := if p.enabled then 1 else 0;
    match a
    case AddRow => Insert(Escape(p.url), flag, Escape(p.comment), now)
    case UpdateRow(id) => Update(id, flag, Escape(p.comment), now)
    case RemoveRow(id) => Delete(id)
  }

  function FailurePrefix(a: Action): string {
    match a
    case AddRow => "Failed to add adlist: "
    case UpdateRow(_) => "Failed to update adlist: "
    case RemoveRow(_) => "Failed to remove adlist: "
    case NoAction => ""
  }

  /** The `adlist` dictionary of the result. */
  datatype Summary = Summary(url: string, comment: string, enabled: bool, id: Option<int>)

  datatype Report =
    | Failed(msg: string)
    | Crashed
    | Done(changed: bool, message: string, adlist: Summary)

  function SummaryOf(p: Params, existing: Existing): Summary {
    Summary(p.url, p.comment, p.enabled, if existing.Exists? then Some(existing.id) else None)
  }

  /** The outcome of the whole run once the lookup succeeded. */
  function Carry(t: Table, reachable: bool, error: ErrorText, p: Params, existing: Existing,
                 checkMode: bool, now: int): (Report, Table, seq<Statement>)
  {
    var plan := Decide(existing, p);
    var done := Done(plan.changed, plan.message, SummaryOf(p, existing));
    if checkMode || plan.action == NoAction then (done, t, [])
    else
      var stmt := ActionStatement(plan.action, p, now);
      var e := Exec(t, reachable, error, stmt);
      if e.0.Failure? then (Failed(FailurePrefix(plan.action) + e.0.error), e.1, [stmt])
      else (done, e.1, [stmt])
  }

  /** The rest of `main` once the lookup has answered: fail, raise, or go on with `Carry`. */
  function Conclude(t: Table, reachable: bool, error: ErrorText, p: Params, found: Result<Existing, LookupError>,
                    checkMode: bool, now: int): (Report, Table, seq<Statement>)
  {
    match found
    case Failure(ExecError(e)) => (Failed("Failed to check adlist existence: " + e), t, [])
    case Failure(ParseError) => (Crashed, t, [])
    case Success(existing) => Carry(t, reachable, error, p, existing, checkMode, now)
  }

  /** `main`: the report, the table afterwards and the statements run, in order. */
  function ReconcileSpec(t: Table, reachable: bool, error: ErrorText, p: Params, checkMode: bool, now: int)
    : (Report, Table, seq<Statement>)
  {
    var c := Conclude(t, reachable, error, p, Lookup(t, reachable, error, p.url), checkMode, now);
    (c.0, c.1, [Select(p.url)] + c.2)
  }

  // ---------------------------------------------------------------------
  // The database object and the module

  class GravityDb {
    var rows: map<string, Row>
    var nextId: nat
    /** Whether `docker exec` reaches the container at all. */
    const reachable: bool
    /** The error text of a failed command. */
    const error: ErrorText
    /** Statements run so far, oldest first. */
    var issued: seq<Statement>

    constructor (rows: map<string, Row>, nextId: nat, reachable: bool, error: ErrorText)
      ensures this.rows == rows && this.nextId == nextId && this.reachable == reachable && this.error == error
      ensures issued == []
    {
      this.rows := rows;
      this.nextId := nextId;
      this.reachable := reachable;
      this.error := error;
      issued := [];
    }

    /** `run_docker_exec`. */
    method Run(stmt: Statement) returns (out: Result<string, ErrorText>)
      modifies this`rows, this`nextId, this`issued
      ensures var e := Exec(Table(old(rows), old(nextId)), reachable, error, stmt);
        out == Stripped(e.0) && Table(rows, nextId) == e.1
      ensures issued == old(issued) + [stmt]
    {
      issued := issued + [stmt];
      if !reachable {
        return Failure(error);
      }
      var res := Interpret(Table(rows, nextId), stmt);
      rows, nextId := res.1.rows, res.1.nextId;
      if res.0.None? {
        return Failure(error);
      }
      out := Success(Text.Strip(res.0.value));
    }

    /** `check_adlist_exists`. */
    method CheckExists(url: string) returns (r: Result<Existing, LookupError>)
      modifies this`rows, this`nextId, this`issued
      ensures r == Lookup(Table(old(rows), old(nextId)), reachable, error, url)
      ensures Table(rows, nextId) == Table(old(rows), old(nextId)) && issued == old(issued) + [Select(url)]
    {
      var out := Run(Select(url));
      if out.Failure? {
        return Failure(ExecError(out.error));
      }
      if out.value == "" {
        return Success(Missing);
      }
      var parts := Text.Split(out.value, '|');
      if |parts| < 2 {
        return Failure(ParseError);
      }
      var id := Text.ParseInt(parts[0]);
      var en := Text.ParseInt(parts[1]);
      if id.None? || en.None? {
        return Failure(ParseError);
      }
      r := Success(Exists(id.value, en.value != 0, if |parts| > 2 then parts[2] else ""));
    }

    /** `add_adlist`, `update_adlist` and `remove_adlist`: one statement, reporting only its error. */
    method Apply(stmt: Statement) returns (failure: Option<ErrorText>)
      modifies this`rows, this`nextId, this`issued
      ensures var (out, after) := Exec(Table(old(rows), old(nextId)), reachable, error, stmt);
        && Table(rows, nextId) == after
        && failure == (if out.Failure? then Some(out.error) else None)
      ensures issued == old(issued) + [stmt]
    {
      var out := Run(stmt);
      failure := if out.Failure? then Some(out.error) else None;
    }
  }

  /** `main`, after argument parsing: look up, decide, then act unless in check mode. */
  method Reconcile(db: GravityDb, p: Params, checkMode: bool, now: int) returns (report: Report)
    modifies db`rows, db`nextId, db`issued
    ensures var spec := ReconcileSpec(Table(old(db.rows), old(db.nextId)), db.reachable, db.error, p, checkMode, now);
      && report == spec.0 && Table(db.rows, db.nextId) == spec.1 && db.issued == old(db.issued) + spec.2
  {
    ghost var before, log := Table(db.rows, db.nextId), db.issued;
    var found := db.CheckExists(p.url);
    report := Respond(db, p, found, checkMode, now);
    Seqs.Concat3(log, [Select(p.url)], Conclude(before, db.reachable, db.error, p, found, checkMode, now).2);
  }


  /** What `main` does with the lookup's answer. */
  method Respond(db: GravityDb, p: Params, found: Result<Existing, LookupError>, checkMode: bool, now: int)
    returns (report: Report)
    modifies db`rows, db`nextId, db`issued
    ensures var spec := Conclude(Table(old(db.rows), old(db.nextId)), db.reachable, db.error, p, found, checkMode, now);
      && report == spec.0 && Table(db.rows, db.nextId) == spec.1 && db.issued == old(db.issued) + spec.2
  {
    if found.Failure? {
      if found.error.ExecError? {
        return Failed("Failed to check adlist existence: " + found.error.text);
      }
      return Crashed;
    }
    report := Settle(db, p, found.value, checkMode, now);
  }

  /** The `present`/`absent` branches of `main`, filling `changed`, `message` and `needs_update` in turn. */
  method Settle(db: GravityDb, p: Params, existing: Existing, checkMode: bool, now: int) returns (report: Report)
    modifies db`rows, db`nextId, db`issued
    ensures var spec := Carry(Table(old(db.rows), old(db.nextId)), db.reachable, db.error, p, existing, checkMode, now);
      && report == spec.0 && Table(db.rows, db.nextId) == spec.1 && db.issued == old(db.issued) + spec.2
  {
    var changed := false;
    var message := "";
    var flag := if p.enabled then 1 else 0;
    if p.present {
      if existing.Missing? {
        if !checkMode {
          var failure := db.Apply(Insert(Escape(p.url), flag, Escape(p.comment), now));
          if failure.Some? {
            return Failed("Failed to add adlist: " + failure.value);
          }
        }
        changed := true;
        message := "Added adlist: " + Label(p);
      } else {
        var needsUpdate := false;
        if existing.enabled != p.enabled {
          needsUpdate := true;
        }
        if p.comment != "" && existing.comment != p.comment {
          needsUpdate := true;
        }
        if needsUpdate {
          if !checkMode {
            var failure := db.Apply(Update(existing.id, flag, Escape(p.comment), now));
            if failure.Some? {
              return Failed("Failed to update adlist: " + failure.value);
            }
          }
          changed := true;
          message := "Updated adlist: " + Label(p);
        } else {
          message := "Adlist already present: " + Label(p);
        }
      }
    } else {
      if existing.Exists? {
        if !checkMode {
          var failure := db.Apply(Delete(existing.id));
          if failure.Some? {
            return Failed("Failed to remove adlist: " + failure.value);
          }
        }
        changed := true;
        message := "Removed adlist: " + Label(p);
      } else {
        message := "Adlist already absent: " + Label(p);
      }
    }
    report := Done(changed, message, SummaryOf(p, existing));
  }

  // ---------------------------------------------------------------------
  // Properties

  /** What the lookup finds for an address: the stored row with its comment as read back, or nothing. */
  function Found(t: Table, url: string): Existing {
    if url in t.rows then Exists(t.rows[url].id, t.rows[url].enabled, ReadBack(t.rows[url].comment)) else Missing
  }

  /** For a reachable container and an address without a quote, the run is the lookup of the stored row followed by `Carry`. */
  lemma SpecFound(t: Table, error: ErrorText, p: Params, checkMode: bool, now: int)
    requires '\'' !in p.url
    ensures var c := Carry(t, true, error, p, Found(t, p.url), checkMode, now);
      ReconcileSpec(t, true, error, p, checkMode, now) == (c.0, c.1, [Select(p.url)] + c.2)
  {
    LookupFinds(t, error, p.url);
  }

  lemma ExecSelect(t: Table, error: ErrorText, url: string, a: string)
    requires Unescape(url) == Some(a)
    ensures Exec(t, true, error, Select(url)) == (Success(if a in t.rows then RowText(t.rows[a]) + "\n" else ""), t)
  {
  }

  /** A printed row always parses, so the lookup never raises on what the table holds. */
  lemma LookupNeverRaises(t: Table, reachable: bool, error: ErrorText, url: string)
    ensures Lookup(t, reachable, error, url) != Failure(ParseError)
  {
    var a := Unescape(url);
    if reachable && a.Some? {
      ExecSelect(t, error, url, a.value);
      if a.value in t.rows {
        ListingRoundTrip(t.rows[a.value]);
      } else {
        Text.StripEmpty();
      }
    }
  }

  /** So the module never raises on what the table holds. */
  lemma NeverCrashes(t: Table, reachable: bool, error: ErrorText, p: Params, checkMode: bool, now: int)
    ensures !ReconcileSpec(t, reachable, error, p, checkMode, now).0.Crashed?
  {
    LookupNeverRaises(t, reachable, error, p.url);
  }

  /** An address with a lone quote breaks the lookup statement: the run fails before deciding anything. */
  lemma LoneQuoteFails(t: Table, reachable: bool, error: ErrorText, p: Params, checkMode: bool, now: int)
    requires Unescape(p.url).None?
    ensures var (r, t', stmts) := ReconcileSpec(t, reachable, error, p, checkMode, now);
      r == Failed("Failed to check adlist existence: " + error) && t' == t && stmts == [Select(p.url)]
  {
  }

  /**
   * An address holding a doubled quote is stored as given but looked up as
   * SQLite reads it (`''` as `'`), so the row the module adds is never
   * found: the first present run adds it, and every later present run
   * tries the insert again and fails on the unique address.
   */
  lemma DoubledQuoteNeverSettles(t: Table, error: ErrorText, p: Params, now1: int, now2: int)
    requires p.present && Unescape(p.url).Some? && Unescape(p.url).value != p.url
    requires p.url !in t.rows && Unescape(p.url).value !in t.rows
    ensures var (r1, t1, _) := ReconcileSpec(t, true, error, p, false, now1);
      var (r2, t2, stmts) := ReconcileSpec(t1, true, error, p, false, now2);
      && r1 == Done(true, "Added adlist: " + Label(p), Summary(p.url, p.comment, p.enabled, None))
      && t1 == Table(t.rows[p.url := Row(t.nextId, p.enabled, p.comment, now1, now1)], t.nextId + 1)
      && r2 == Failed("Failed to add adlist: " + error) && t2 == t1
      && stmts == [Select(p.url), Insert(Escape(p.url), if p.enabled then 1 else 0, Escape(p.comment), now2)]
  {
    DoubledFirstRun(t, error, p, now1);
    var t1 := Table(t.rows[p.url := Row(t.nextId, p.enabled, p.comment, now1, now1)], t.nextId + 1);
    DoubledSecondRun(t1, error, p, now2);
  }

  /** The lookup of a quoted address whose unquoted form is not stored answers that nothing is there. */
  lemma QuotedLookupMissing(t: Table, error: ErrorText, url: string)
    requires Unescape(url).Some? && Unescape(url).value !in t.rows
    ensures Lookup(t, true, error, url) == Success(Missing)
  {
    ExecSelect(t, error, url, Unescape(url).value);
    Text.StripEmpty();
  }

  /** When the lookup answers that nothing is there, the run is `Carry` on a missing row. */
  lemma SpecMissing(t: Table, error: ErrorText, p: Params, checkMode: bool, now: int)
    requires Lookup(t, true, error, p.url) == Success(Missing)
    ensures var c := Carry(t, true, error, p, Missing, checkMode, now);
      ReconcileSpec(t, true, error, p, checkMode, now) == (c.0, c.1, [Select(p.url)] + c.2)
  {
  }

  lemma DoubledFirstRun(t: Table, error: ErrorText, p: Params, now: int)
    requires p.present && Unescape(p.url).Some?
    requires p.url !in t.rows && Unescape(p.url).value !in t.rows
    ensures var (r, t', _) := ReconcileSpec(t, true, error, p, false, now);
      && r == Done(true, "Added adlist: " + Label(p), Summary(p.url, p.comment, p.enabled, None))
      && t' == Table(t.rows[p.url := Row(t.nextId, p.enabled, p.comment, now, now)], t.nextId + 1)
  {
    QuotedLookupMissing(t, error, p.url);
    SpecMissing(t, error, p, false, now);
    ExecInsert(t, error, p.url, if p.enabled then 1 else 0, p.comment, now);
    CarryActs(t, error, p, Missing, now);
  }

  lemma DoubledSecondRun(t: Table, error: ErrorText, p: Params, now: int)
    requires p.present && Unescape(p.url).Some?
    requires p.url in t.rows && Unescape(p.url).value !in t.rows
    ensures var (r, t', stmts) := ReconcileSpec(t, true, error, p, false, now);
      && r == Failed("Failed to add adlist: " + error) && t' == t
      && stmts == [Select(p.url), Insert(Escape(p.url), if p.enabled then 1 else 0, Escape(p.comment), now)]
  {
    QuotedLookupMissing(t, error, p.url);
    SpecMissing(t, error, p, false, now);
    var stmt := Insert(Escape(p.url), if p.enabled then 1 else 0, Escape(p.comment), now);
    assert Decide(Missing, p).action == AddRow;
    EscapeRoundTrip(p.url);
    assert Exec(t, true, error, stmt) == (Failure(error), t);
  }

  /** For instance the address `a''b`, which SQLite reads as `a'b`: the second run on an empty table fails. */
  lemma DoubledQuoteExample(error: ErrorText, now1: int, now2: int)
    ensures var p := Params("a''b", "", true, true);
      var t1 := ReconcileSpec(Table(map[], 1), true, error, p, false, now1).1;
      && "a''b" in t1.rows
      && ReconcileSpec(t1, true, error, p, false, now2).0 == Failed("Failed to add adlist: " + error)
  {
    assert Unescape("") == Some("");
    assert "b"[1..] == "" && ['b'] + "" == "b";
    assert Unescape("b") == Some("b");
    assert "''b"[2..] == "b" && "'" + "b" == "'b";
    assert Unescape("''b") == Some("'b");
    assert "a''b"[1..] == "''b" && ['a'] + "'b" == "a'b";
    DoubledQuoteNeverSettles(Table(map[], 1), error, Params("a''b", "", true, true), now1, now2);
  }

  lemma ExecInsert(t: Table, error: ErrorText, url: string, en: int, comment: string, now: int)
    requires url !in t.rows
    ensures Exec(t, true, error, Insert(Escape(url), en, Escape(comment), now))
         == (Success(""), Table(t.rows[url := Row(t.nextId, en != 0, comment, now, now)], t.nextId + 1))
  {
    EscapeRoundTrip(url);
    EscapeRoundTrip(comment);
  }

  lemma ExecUpdate(t: Table, error: ErrorText, id: int, en: int, comment: string, now: int)
    ensures Exec(t, true, error, Update(id, en, Escape(comment), now))
         == (Success(""), Table(UpdateRows(t.rows, id, en != 0, comment, now), t.nextId))
  {
    EscapeRoundTrip(comment);
  }

  lemma ExecDelete(t: Table, error: ErrorText, id: int)
    ensures Exec(t, true, error, Delete(id)) == (Success(""), Table(DeleteRows(t.rows, id), t.nextId))
  {
  }

  /** When the statement succeeds, the run reports the decision and leaves the statement's table. */
  lemma CarryActs(t: Table, error: ErrorText, p: Params, existing: Existing, now: int)
    requires Decide(existing, p).action != NoAction
    requires Exec(t, true, error, ActionStatement(Decide(existing, p).action, p, now)).0.Success?
    ensures var plan := Decide(existing, p);
      var stmt := ActionStatement(plan.action, p, now);
      Carry(t, true, error, p, existing, false, now)
        == (Done(true, plan.message, SummaryOf(p, existing)), Exec(t, true, error, stmt).1, [stmt])
  {
  }

  /** Present with no row adds one, with a fresh id, the flag and the comment as given, and reports no id. */
  lemma PresentAdds(t: Table, error: ErrorText, p: Params, now: int)
    requires p.present && '\'' !in p.url && p.url !in t.rows
    ensures var (r, t', _) := ReconcileSpec(t, true, error, p, false, now);
      && r == Done(true, "Added adlist: " + Label(p), Summary(p.url, p.comment, p.enabled, None))
      && t' == Table(t.rows[p.url := Row(t.nextId, p.enabled, p.comment, now, now)], t.nextId + 1)
  {
    SpecFound(t, error, p, false, now);
    ExecInsert(t, error, p.url, if p.enabled then 1 else 0, p.comment, now);
    CarryActs(t, error, p, Found(t, p.url), now);
  }

  lemma UpdateRowsOne(rows: map<string, Row>, url: string, enabled: bool, comment: string, stamp: int)
    requires url in rows
    requires forall a | a in rows && a != url :: rows[a].id != rows[url].id
    ensures UpdateRows(rows, rows[url].id, enabled, comment, stamp)
         == rows[url := rows[url].(enabled := enabled, comment := comment, modified := stamp)]
  {
  }

  lemma DeleteRowsOne(rows: map<string, Row>, url: string)
    requires url in rows
    requires forall a | a in rows && a != url :: rows[a].id != rows[url].id
    ensures DeleteRows(rows, rows[url].id) == rows - {url}
  {
  }

  /**
   * Present with a row that differs writes the flag and the comment as
   * given (an empty comment too) to that row alone, and reports its id.
   */
  lemma PresentUpdates(t: Table, error: ErrorText, p: Params, now: int)
    requires Valid(t) && p.present && '\'' !in p.url && p.url in t.rows
    requires NeedsUpdate(Found(t, p.url), p)
    ensures var (r, t', _) := ReconcileSpec(t, true, error, p, false, now);
      && r == Done(true, "Updated adlist: " + Label(p), Summary(p.url, p.comment, p.enabled, Some(t.rows[p.url].id)))
      && t' == Table(t.rows[p.url := t.rows[p.url].(enabled := p.enabled, comment := p.comment, modified := now)], t.nextId)
  {
    SpecFound(t, error, p, false, now);
    var flag := if p.enabled then 1 else 0;
    ExecUpdate(t, error, t.rows[p.url].id, flag, p.comment, now);
    CarryActs(t, error, p, Found(t, p.url), now);
    UpdateRowsOne(t.rows, p.url, p.enabled, p.comment, now);
  }

  /** Present with a row that matches changes nothing and reports its id. */
  lemma PresentKeeps(t: Table, error: ErrorText, p: Params, checkMode: bool, now: int)
    requires p.present && '\'' !in p.url && p.url in t.rows
    requires !NeedsUpdate(Found(t, p.url), p)
    ensures var (r, t', _) := ReconcileSpec(t, true, error, p, checkMode, now);
      && r == Done(false, "Adlist already present: " + Label(p), Summary(p.url, p.comment, p.enabled, Some(t.rows[p.url].id)))
      && t' == t
  {
    SpecFound(t, error, p, checkMode, now);
  }

  /** Absent deletes an existing row by its id, and only that row. */
  lemma AbsentRemoves(t: Table, error: ErrorText, p: Params, now: int)
    requires Valid(t) && !p.present && '\'' !in p.url && p.url in t.rows
    ensures var (r, t', _) := ReconcileSpec(t, true, error, p, false, now);
      && r == Done(true, "Removed adlist: " + Label(p), Summary(p.url, p.comment, p.enabled, Some(t.rows[p.url].id)))
      && t' == Table(t.rows - {p.url}, t.nextId)
  {
    SpecFound(t, error, p, false, now);
    ExecDelete(t, error, t.rows[p.url].id);
    CarryActs(t, error, p, Found(t, p.url), now);
    DeleteRowsOne(t.rows, p.url);
  }

  /** Absent with no row changes nothing, so a second absent run never changes anything. */
  lemma AbsentMissing(t: Table, error: ErrorText, p: Params, checkMode: bool, now: int)
    requires !p.present && '\'' !in p.url && p.url !in t.rows
    ensures var (r, t', _) := ReconcileSpec(t, true, error, p, checkMode, now);
      r == Done(false, "Adlist already absent: " + Label(p), Summary(p.url, p.comment, p.enabled, None)) && t' == t
  {
    SpecFound(t, error, p, checkMode, now);
  }

  /**
   * Check mode runs the lookup and nothing else, and reports exactly what
   * the real run reports whenever the real run succeeds.
   */
  lemma CheckModeSame(t: Table, reachable: bool, error: ErrorText, p: Params, now: int)
    ensures var (r, t', stmts) := ReconcileSpec(t, reachable, error, p, true, now);
      && t' == t && stmts == [Select(p.url)]
      && (ReconcileSpec(t, reachable, error, p, false, now).0.Done? ==> r == ReconcileSpec(t, reachable, error, p, false, now).0)
  {
  }

  /** The reported id is the stored row's id before the run, or none when there was no row. */
  lemma ReportedId(t: Table, error: ErrorText, p: Params, checkMode: bool, now: int)
    requires '\'' !in p.url
    ensures var r := ReconcileSpec(t, true, error, p, checkMode, now).0;
      r.Done? ==> r.adlist.id == (if p.url in t.rows then Some(t.rows[p.url].id) else None)
  {
    SpecFound(t, error, p, checkMode, now);
    CarrySummary(t, error, p, Found(t, p.url), checkMode, now);
  }

  /** Whenever the run succeeds it reports the parameters and the id the lookup found. */
  lemma CarrySummary(t: Table, error: ErrorText, p: Params, existing: Existing, checkMode: bool, now: int)
    ensures var r := Carry(t, true, error, p, existing, checkMode, now).0;
      r.Done? ==> r.adlist == SummaryOf(p, existing)
  {
  }

  /** A present run that changes something leaves the row with the flag and the comment as given. */
  lemma PresentWritten(t: Table, error: ErrorText, p: Params, now: int)
    requires Valid(t) && p.present && '\'' !in p.url
    requires var r := ReconcileSpec(t, true, error, p, false, now).0; r.Done? && r.changed
    ensures var t1 := ReconcileSpec(t, true, error, p, false, now).1;
      p.url in t1.rows && t1.rows[p.url].enabled == p.enabled && t1.rows[p.url].comment == p.comment
  {
    if p.url !in t.rows {
      PresentAdds(t, error, p, now);
    } else if NeedsUpdate(Found(t, p.url), p) {
      PresentUpdates(t, error, p, now);
    } else {
      PresentKeeps(t, error, p, false, now);
    }
  }

  /** Run against a row that holds the flag and the comment as given, present changes it exactly when the comment does not read back as itself. */
  lemma PresentOnWritten(t: Table, error: ErrorText, p: Params, now: int)
    requires p.present && '\'' !in p.url
    requires p.url in t.rows && t.rows[p.url].enabled == p.enabled && t.rows[p.url].comment == p.comment
    ensures var r := ReconcileSpec(t, true, error, p, false, now).0;
      r.Done? && (r.changed <==> p.comment != "" && ReadBack(p.comment) != p.comment)
  {
    if NeedsUpdate(Found(t, p.url), p) {
      SpecFound(t, error, p, false, now);
      ExecUpdate(t, error, t.rows[p.url].id, if p.enabled then 1 else 0, p.comment, now);
      CarryActs(t, error, p, Found(t, p.url), now);
    } else {
      PresentKeeps(t, error, p, false, now);
    }
  }

  /**
   * After a present run that wrote the row, running it again changes the
   * table again exactly when the comment is not empty and does not survive
   * being read back (it holds a `|` or ends in whitespace).
   */
  lemma SecondPresentRun(t: Table, error: ErrorText, p: Params, now1: int, now2: int)
    requires Valid(t) && p.present && '\'' !in p.url
    requires var r := ReconcileSpec(t, true, error, p, false, now1).0; r.Done? && r.changed
    ensures var t1 := ReconcileSpec(t, true, error, p, false, now1).1;
      var r2 := ReconcileSpec(t1, true, error, p, false, now2).0;
      && r2.Done?
      && (r2.changed <==> p.comment != "" && ReadBack(p.comment) != p.comment)
  {
    PresentWritten(t, error, p, now1);
    PresentOnWritten(ReconcileSpec(t, true, error, p, false, now1).1, error, p, now2);
  }

  /** A present run whose comment survives being read back leaves nothing to do the second time. */
  lemma PresentIdempotent(t: Table, error: ErrorText, p: Params, now1: int, now2: int)
    requires Valid(t) && p.present && '\'' !in p.url
    requires p.comment == "" || ReadBack(p.comment) == p.comment
    requires ReconcileSpec(t, true, error, p, false, now1).0.Done?
    ensures var t1 := ReconcileSpec(t, true, error, p, false, now1).1;
      var (r2, t2, _) := ReconcileSpec(t1, true, error, p, false, now2);
      r2.Done? && !r2.changed && t2 == t1
  {
    var t1 := ReconcileSpec(t, true, error, p, false, now1).1;
    if p.url !in t.rows {
      PresentAdds(t, error, p, now1);
    } else if NeedsUpdate(Found(t, p.url), p) {
      PresentUpdates(t, error, p, now1);
    } else {
      PresentKeeps(t, error, p, false, now1);
    }
    PresentKeeps(t1, error, p, false, now2);
  }
}
