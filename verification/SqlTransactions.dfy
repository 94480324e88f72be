/** The sqlite3 wrapper of sqlite.rs: implicit transactions, batches under a savepoint, and the
    rollback at the end of an invocation. */
module SqlTransactions {

  /** What one stepped statement does inside a transaction: it succeeds, fails leaving some partial
      state, or makes the engine roll the whole transaction back. */
  datatype Outcome<D> = Done(after: D) | Failed(partial: D) | RolledBack

  /** The state of the database: what is durable, what the connection sees, and its savepoints. */
  datatype Db<D(==)> = Db(durable: D, current: D, autoCommit: bool, marks: seq<D>)
  {
    ghost predicate Sound() { autoCommit ==> current == durable && marks == [] }

    /** The whole transaction is given up. */
    function Undone(): Db<D> { Db(durable, durable, true, []) }

    function Written(outcome: Outcome<D>): Db<D> {
      match outcome
      case Done(after) => Db(durable, after, false, marks)
      case Failed(partial) => Db(durable, partial, false, marks)
      case RolledBack => Undone()
    }
  }

  // ---------- which statements write ----------

  /** Unicode White_Space. */
  predicate IsSpace(c: char): (b: bool)
    ensures b <==> c as int in {9, 10, 11, 12, 13, 0x20, 0x85, 0xA0, 0x1680, 0x2000, 0x2001, 0x2002, 0x2003, 0x2004,
      0x2005, 0x2006, 0x2007, 0x2008, 0x2009, 0x200A, 0x2028, 0x2029, 0x202F, 0x205F, 0x3000}
  {
    || '\t' <= c <= '\r' || c == ' ' || c == '\U{0085}' || c == '\U{00A0}' || c == '\U{1680}'
    || '\U{2000}' <= c <= '\U{200A}' || c == '\U{2028}' || c == '\U{2029}' || c == '\U{202F}'
    || c == '\U{205F}' || c == '\U{3000}'
  }

  predicate IsAlpha(c: char): (b: bool)
    ensures b <==> 0x41 <= c as int <= 0x5A || 0x61 <= c as int <= 0x7A
  {
    'a' <= c <= 'z' || 'A' <= c <= 'Z'
  }

  function ToLower(c: char): char {
    if 'A' <= c <= 'Z' then (c as int + 32) as char else c
  }

  /** What `split_once` leaves after the first occurrence of a separator; empty if there is none. */
  function AfterFirst(s: string, separator: string): (rest: string)
    ensures |rest| <= |s|
  {
    if separator <= s then s[|separator|..] else if s == "" then "" else AfterFirst(s[1..], separator)
  }

  function TrimStart(s: string): (rest: string)
    ensures |rest| <= |s| && (rest != "" ==> !IsSpace(rest[0]))
  {
    if s != "" && IsSpace(s[0]) then TrimStart(s[1..]) else s
  }

  function SkipTrivia(s: string): string
    decreases |s|
  {
    var rest := TrimStart(s);
    if "--" <= rest then SkipTrivia(AfterFirst(rest[2..], "\n"))
    else if "/*" <= rest then SkipTrivia(AfterFirst(rest[2..], "*/"))
    else rest
  }

  function LeadingWord(s: string): (w: string)
    ensures forall c <- w :: 'a' <= c <= 'z'
  {
    if s != "" && IsAlpha(s[0]) then [ToLower(s[0])] + LeadingWord(s[1..]) else ""
  }

  method FirstKeyword(sql: string) returns (word: string)
    ensures word == LeadingWord(SkipTrivia(sql))
  {
    var rest := sql;
    while true
      invariant SkipTrivia(rest) == SkipTrivia(sql)
      decreases |rest|
    {
      ghost var before := rest;
      rest := TrimStart(rest);
      if "--" <= rest {
        rest := AfterFirst(rest[2..], "\n");
      } else if "/*" <= rest {
        rest := AfterFirst(rest[2..], "*/");
      } else {
        break;
      }
    }
    word := LeadingWord(rest);
  }

  predicate IsWriteVerb(word: string) {
    word == "insert" || word == "update" || word == "delete" || word == "replace"
  }

  predicate Writes(sql: string) { IsWriteVerb(LeadingWord(SkipTrivia(sql))) }

  method IsWrite(sql: string) returns (write: bool)
    ensures write == Writes(sql)
  {
    var word := FirstKeyword(sql);
    write := IsWriteVerb(word);
  }

  /** What may stand in front of a statement. */
  datatype Trivia = Space(c: char) | LineComment(text: string) | BlockComment(text: string)

  predicate Occurs(s: string, separator: string) {
    separator <= s || (s != "" && Occurs(s[1..], separator))
  }

  predicate TriviaOk(t: Trivia) {
    match t
    case Space(c) => IsSpace(c)
    case LineComment(text) => !Occurs(text, "\n")
    case BlockComment(text) => !Occurs(text, "*/")
  }

  function TriviaText(t: Trivia): string {
    match t
    case Space(c) => [c]
    case LineComment(text) => "--" + text + "\n"
    case BlockComment(text) => "/*" + text + "*/"
  }

  function TriviaAll(ts: seq<Trivia>): string {
    if ts == [] then "" else TriviaText(ts[0]) + TriviaAll(ts[1..])
  }

  lemma {:induction false} AfterFirstIs(text: string, separator: string, rest: string)
    requires separator == "\n" || separator == "*/"
    requires !Occurs(text, separator)
    ensures AfterFirst(text + separator + rest, separator) == rest
  {
    var s := text + separator + rest;
    if text == "" {
      assert s == separator + rest;
    } else {
      assert s[0] == text[0] && s[1..] == text[1..] + separator + rest;
      if |text| >= |separator| {
        assert text[..|separator|] == s[..|separator|];
      } else {
        assert s[1] == separator[0];
      }
      AfterFirstIs(text[1..], separator, rest);
    }
  }

  lemma OneSkipped(t: Trivia, more: string)
    requires TriviaOk(t)
    ensures SkipTrivia(TriviaText(t) + more) == SkipTrivia(more)
  {
    hide AfterFirst, Occurs;
    var s := TriviaText(t) + more;
    match t
    case Space(c) => assert s[0] == c && s[1..] == more;
    case LineComment(text) =>
      assert s[0] == '-' && s[..2] == "--" && s[2..] == text + "\n" + more;
      AfterFirstIs(text, "\n", more);
      SkipComment(s, "--", "\n");
    case BlockComment(text) =>
      assert s[0] == '/' && s[..2] == "/*" && s[2..] == text + "*/" + more;
      AfterFirstIs(text, "*/", more);
      SkipComment(s, "/*", "*/");
  }

  lemma SkipComment(s: string, open: string, close: string)
    requires (open == "--" && close == "\n") || (open == "/*" && close == "*/")
    requires |s| >= 2 && s[..2] == open
    ensures SkipTrivia(s) == SkipTrivia(AfterFirst(s[2..], close))
  {
    hide AfterFirst;
    assert s[0] == open[0] && s[1] == open[1];
    assert TrimStart(s) == s;
  }

  lemma {:induction false} TriviaSkipped(ts: seq<Trivia>, rest: string)
    requires forall t <- ts :: TriviaOk(t)
    ensures SkipTrivia(TriviaAll(ts) + rest) == SkipTrivia(rest)
  {
    hide SkipTrivia, TriviaOk, TriviaText;
    if ts == [] {
      assert "" + rest == rest;
    } else {
      assert TriviaAll(ts) + rest == TriviaText(ts[0]) + (TriviaAll(ts[1..]) + rest);
      OneSkipped(ts[0], TriviaAll(ts[1..]) + rest);
      TriviaSkipped(ts[1..], rest);
    }
  }

  lemma {:induction false} LeadingWordIs(verb: string, tail: string)
    requires (forall c <- verb :: IsAlpha(c)) && (tail != "" ==> !IsAlpha(tail[0]))
    ensures LeadingWord(verb + tail) == Lowered(verb)
  {
    if verb == "" {
      assert verb + tail == tail;
    } else {
      assert (verb + tail)[0] == verb[0] && (verb + tail)[1..] == verb[1..] + tail;
      LeadingWordIs(verb[1..], tail);
    }
  }

  function Lowered(verb: string): string {
    if verb == "" then "" else [ToLower(verb[0])] + Lowered(verb[1..])
  }

  /** The same letters, of which some may be capitals where the word has small ones. */
  predicate InAnyCase(verb: string, word: string) {
    && |verb| == |word|
    && forall k | 0 <= k < |verb| :: verb[k] == word[k] || verb[k] as int + 32 == word[k] as int
  }

  lemma {:induction false} LoweredAt(verb: string, k: nat)
    requires k < |verb|
    ensures |Lowered(verb)| == |verb| && Lowered(verb)[k] == ToLower(verb[k])
  {
    if |verb| > 1 { LoweredAt(verb[1..], if k == 0 then 0 else k - 1); }
  }

  lemma LoweredInAnyCase(verb: string, word: string)
    requires (forall c <- verb :: IsAlpha(c)) && forall c <- word :: 'a' <= c <= 'z'
    ensures Lowered(verb) == word <==> InAnyCase(verb, word)
  {
    hide Lowered;
    if verb == "" { LoweredEmpty(); } else { LoweredAt(verb, 0); }
    forall k | 0 <= k < |verb| ensures Lowered(verb)[k] == ToLower(verb[k]) { LoweredAt(verb, k); }
    forall k | 0 <= k < |verb| && |word| == |verb|
      ensures ToLower(verb[k]) == word[k] <==> verb[k] == word[k] || verb[k] as int + 32 == word[k] as int
    {
      assert verb[k] in verb && word[k] in word;
    }
    if InAnyCase(verb, word) { assert Lowered(verb) == word; }
  }

  lemma LoweredEmpty()
    ensures Lowered("") == ""
  {}

  /** Whatever blanks and comments precede it: a statement counts as a write exactly when its first
      word is, in any case, one of the four verbs. */
  lemma WriteRecognised(ts: seq<Trivia>, verb: string, tail: string)
    requires forall t <- ts :: TriviaOk(t)
    requires verb != "" && (forall c <- verb :: IsAlpha(c)) && (tail != "" ==> !IsAlpha(tail[0]))
    ensures LeadingWord(SkipTrivia(TriviaAll(ts) + (verb + tail))) == Lowered(verb)
    ensures Writes(TriviaAll(ts) + (verb + tail)) <==>
      || InAnyCase(verb, "insert") || InAnyCase(verb, "update")
      || InAnyCase(verb, "delete") || InAnyCase(verb, "replace")
  {
    hide TriviaAll, SkipTrivia, LeadingWord, TriviaOk, IsAlpha, Lowered;
    TriviaSkipped(ts, verb + tail);
    assert (verb + tail)[0] == verb[0];
    NothingSkipped(verb + tail);
    LeadingWordIs(verb, tail);
    LoweredInAnyCase(verb, "insert");
    LoweredInAnyCase(verb, "update");
    LoweredInAnyCase(verb, "delete");
    LoweredInAnyCase(verb, "replace");
  }

  /** A comment that is not ended hides the rest of the text, which is then no write. */
  lemma UnendedCommentHides(ts: seq<Trivia>, open: string, text: string)
    requires forall t <- ts :: TriviaOk(t)
    requires (open == "--" && !Occurs(text, "\n")) || (open == "/*" && !Occurs(text, "*/"))
    ensures !Writes(TriviaAll(ts) + (open + text))
  {
    hide AfterFirst, Occurs, TriviaAll, TriviaOk;
    var close := if open == "--" then "\n" else "*/";
    var s := open + text;
    assert s[..2] == open && s[2..] == text;
    NoneLeft(text, close);
    SkipComment(s, open, close);
    TriviaSkipped(ts, s);
  }

  lemma {:induction false} NoneLeft(text: string, separator: string)
    requires !Occurs(text, separator)
    ensures AfterFirst(text, separator) == ""
  {
    if text != "" { NoneLeft(text[1..], separator); }
  }

  lemma NothingSkipped(s: string)
    requires s != "" && IsAlpha(s[0])
    ensures SkipTrivia(s) == s
  {
    assert TrimStart(s) == s;
  }

  // ---------- what each call does ----------

  /** `execute` of an accepted statement: a write opens a transaction if none is open. */
  function ExecuteOf<D>(db: Db<D>, sql: string, begin: bool, outcome: Outcome<D>): Db<D> {
    if !Writes(sql) || (db.autoCommit && !begin) then db else db.Written(outcome)
  }

  /** Which control statements of a batch work. */
  datatype Works = Works(begin: bool, savepoint: bool, release: bool, rollbackTo: bool, releaseAfter: bool)

  datatype BatchResult =
    | BatchOk
    | Refused
    | ControlFailed
    | RowFailed
    | RowFailedRolledBack
    | EarlierWritesLost
    | ReleaseFailed
    | UndoFailed

  predicate AllDone<D>(rows: seq<Outcome<D>>) {
    forall k | 0 <= k < |rows| :: rows[k].Done?
  }

  /** The rows up to and with the first that fails. */
  function Attempted<D>(rows: seq<Outcome<D>>): (n: nat)
    ensures n <= |rows| && (rows != [] ==> n > 0)
    ensures forall k | 0 <= k < n - 1 :: rows[k].Done?
    ensures n < |rows| ==> !rows[n - 1].Done?
  {
    if rows == [] then 0 else if !rows[0].Done? then 1 else 1 + Attempted(rows[1..])
  }

  /** Rows are written at all. */
  predicate Starts<D>(db: Db<D>, rows: seq<Outcome<D>>, works: Works) {
    rows != [] && (db.autoCommit ==> works.begin) && works.savepoint
  }

  /** `executemany` of an accepted write. */
  function BatchOf<D>(db: Db<D>, rows: seq<Outcome<D>>, works: Works): (Db<D>, BatchResult) {
    if rows == [] then (db, BatchOk)
    else if db.autoCommit && !works.begin then (db, ControlFailed)
    else if !works.savepoint then (db.(autoCommit := false), ControlFailed)
    else Settled(db, rows[Attempted(rows) - 1], works)
  }

  /** A batch begun in a state, after the last row that was attempted. */
  function Settled<D>(db: Db<D>, last: Outcome<D>, works: Works): (Db<D>, BatchResult) {
    var left := db.marks + [db.current];
    match last
    case Done(after) =>
      if works.release then (Db(db.durable, after, false, db.marks), BatchOk)
      else (Db(db.durable, after, false, left), ReleaseFailed)
    case Failed(partial) =>
      if !works.rollbackTo then (Db(db.durable, partial, false, left), UndoFailed)
      else if works.releaseAfter then (Db(db.durable, db.current, false, db.marks), RowFailed)
      else (Db(db.durable, db.current, false, left), UndoFailed)
    case RolledBack => (db.Undone(), if db.autoCommit then RowFailedRolledBack else EarlierWritesLost)
  }

  /** A batch is all or nothing. Nothing becomes durable; success means every row is in place; a
      failed row leaves the pending state and the savepoints as they were, or the engine gave up the
      transaction, which is reported as a loss exactly when there were pending writes; and the
      savepoint outlives the call exactly when releasing it or undoing the rows fails. */
  lemma BatchIsAllOrNothing<D>(db: Db<D>, rows: seq<Outcome<D>>, works: Works)
    requires db.Sound()
    ensures var (after, r) := BatchOf(db, rows, works);
      && after.Sound() && after.durable == db.durable && r != Refused
      && (r == BatchOk <==> rows == [] || (Starts(db, rows, works) && AllDone(rows) && works.release))
      && (r == BatchOk ==> after == if rows == [] then db else Db(db.durable, rows[|rows| - 1].after, false, db.marks))
      && (r in {ControlFailed, RowFailed} ==> after.current == db.current && after.marks == db.marks)
      && (r == RowFailed ==> !after.autoCommit)
      && (r == ControlFailed ==> after.autoCommit == (db.autoCommit && !works.begin))
      && (r in {RowFailedRolledBack, EarlierWritesLost} ==> after == Db(db.durable, db.durable, true, []))
      && (r == ReleaseFailed ==> after.current == rows[|rows| - 1].after)
      && (r == UndoFailed && works.rollbackTo ==> after.current == db.current)
      && (r == UndoFailed && !works.rollbackTo ==> rows[Attempted(rows) - 1] == Failed(after.current))
      && (r == EarlierWritesLost <==> !db.autoCommit && after.autoCommit)
      && (r in {ReleaseFailed, UndoFailed} <==>
            && Starts(db, rows, works)
            && if AllDone(rows) then !works.release
               else !rows[Attempted(rows) - 1].RolledBack? && !(works.rollbackTo && works.releaseAfter))
      && (r in {ReleaseFailed, UndoFailed} <==> after.marks == db.marks + [db.current] && !after.autoCommit)
  {
    hide Attempted;
    if rows != [] {
      assert AllDone(rows) <==> rows[Attempted(rows) - 1].Done?;
    }
    assert |db.marks + [db.current]| != |db.marks|;
  }

  /** Both ways to leave a savepoint behind: all rows are written but the release fails; or a row fails
      and undoing it fails as well, so that what it changed stays pending too. */
  lemma SavepointLeftBehind() returns (db: Db<int>, released: Works, undone: Works)
    ensures db.Sound() && db.autoCommit && db.current == 0
    ensures BatchOf(db, [Done(1)], released) == (Db(0, 1, false, [0]), ReleaseFailed)
    ensures BatchOf(db, [Failed(1)], undone) == (Db(0, 1, false, [0]), UndoFailed)
  {
    db := Db(0, 0, true, []);
    released := Works(true, true, false, true, true);
    undone := Works(true, true, true, false, true);
    var done, failed: seq<Outcome<int>> := [Done(1)], [Failed(1)];
    assert Attempted(done[1..]) == 0 && Attempted(done) == 1;
    assert Attempted(failed) == 1;
    assert db.marks + [db.current] == [0];
  }

  /** `commit` and `rollback` on an open connection. */
  function FinishOf<D>(db: Db<D>, commit: bool, works: bool): (Db<D>, bool) {
    if db.autoCommit then (db, true)
    else if !works then (db, false)
    else if commit then (Db(db.current, db.current, true, []), true)
    else (db.Undone(), true)
  }

  /** The database engine. A control statement either works or fails without effect. */
  class Engine<D(==)> {
    var durable: D
    var current: D
    var autoCommit: bool
    var marks: seq<D>

    ghost predicate Valid()
      reads this
    {
      State().Sound()
    }

    ghost function State(): Db<D>
      reads this
    {
      Db(durable, current, autoCommit, marks)
    }

    constructor (d: D)
      ensures Valid() && durable == current == d && autoCommit
    {
      durable, current, autoCommit, marks := d, d, true, [];
    }

    method Begin(works: bool) returns (ok: bool)
      requires Valid() && autoCommit
      modifies `autoCommit
      ensures Valid() && ok == works && autoCommit == !works
    {
      if works { autoCommit := false; }
      ok := works;
    }

    method Commit(works: bool) returns (ok: bool)
      requires Valid() && !autoCommit
      modifies `durable, `autoCommit, `marks
      ensures Valid() && ok == works && autoCommit == works
      ensures durable == (if works then old(current) else old(durable)) && (!works ==> marks == old(marks))
    {
      if works { durable, autoCommit, marks := current, true, []; }
      ok := works;
    }

    method Rollback(works: bool) returns (ok: bool)
      requires Valid() && !autoCommit
      modifies `current, `autoCommit, `marks
      ensures Valid() && ok == works && autoCommit == works
      ensures current == (if works then durable else old(current)) && (!works ==> marks == old(marks))
    {
      if works { current, autoCommit, marks := durable, true, []; }
      ok := works;
    }

    method Savepoint(works: bool) returns (ok: bool)
      requires Valid() && !autoCommit
      modifies `marks
      ensures Valid() && ok == works && marks == if works then old(marks) + [current] else old(marks)
    {
      if works { marks := marks + [current]; }
      ok := works;
    }

    method RollbackTo(works: bool) returns (ok: bool)
      requires Valid() && !autoCommit && marks != []
      modifies `current
      ensures Valid() && ok == works && current == if works then marks[|marks| - 1] else old(current)
    {
      if works { current := marks[|marks| - 1]; }
      ok := works;
    }

    method Release(works: bool) returns (ok: bool)
      requires Valid() && !autoCommit && marks != []
      modifies `marks
      ensures Valid() && ok == works && marks == if works then old(marks[..|marks| - 1]) else old(marks)
    {
      if works { marks := marks[..|marks| - 1]; }
      ok := works;
    }

    /** A statement that writes; only ever stepped inside a transaction. */
    method Write(outcome: Outcome<D>) returns (ok: bool)
      requires Valid() && !autoCommit
      modifies `current, `autoCommit, `marks
      ensures Valid() && ok == outcome.Done? && autoCommit == outcome.RolledBack?
      ensures outcome.Done? ==> current == outcome.after && marks == old(marks)
      ensures outcome.Failed? ==> current == outcome.partial && marks == old(marks)
      ensures outcome.RolledBack? ==> current == durable && marks == []
      ensures State() == old(State()).Written(outcome)
    {
      match outcome {
        case Done(after) => current := after;
        case Failed(partial) => current := partial;
        case RolledBack => current, autoCommit, marks := durable, true, [];
      }
      ok := outcome.Done?;
    }
  }

  // ---------- the wrapper ----------

  /** A script's handle; all handles of an invocation share one engine. */
  class SqlConnection<D(==)> {
    const engine: Engine<D>
    var closed: bool

    constructor (engine: Engine<D>)
      ensures this.engine == engine && !closed
    {
      this.engine, closed := engine, false;
    }

    /** `execute`; `accepted` says that the arguments and the statement pass their checks. A
        statement that is no write leaves the database alone. */
    method Execute(sql: string, accepted: bool, begin: bool, outcome: Outcome<D>) returns (ok: bool)
      requires engine.Valid()
      modifies engine
      ensures engine.Valid()
      ensures engine.State() == if closed || !accepted then old(engine.State())
        else ExecuteOf(old(engine.State()), sql, begin, outcome)
      ensures engine.durable == old(engine.durable)
      ensures var written := !closed && accepted && Writes(sql) && (old(engine.autoCommit) ==> begin);
        && (!written ==> engine.State() == old(engine.State()))
        && (written && !outcome.RolledBack? ==> !engine.autoCommit && engine.marks == old(engine.marks))
        && (written && outcome.Done? ==> engine.current == outcome.after)
        && (written && outcome.Failed? ==> engine.current == outcome.partial)
        && (written && outcome.RolledBack? ==>
              engine.autoCommit && engine.current == engine.durable && engine.marks == [])
      ensures ok <==> !closed && accepted && outcome.Done? && (Writes(sql) && old(engine.autoCommit) ==> begin)
    {
      if closed || !accepted {
        return false;
      }
      var write := IsWrite(sql);
      if engine.autoCommit && write {
        var begun := engine.Begin(begin);
        if !begun {
          return false;
        }
      }
      if write {
        ok := engine.Write(outcome);
      } else {
        ok := outcome.Done?;
      }
    }

    /** `executemany`: rows are written in order under a savepoint, up to the first that fails. */
    method ExecuteMany(sql: string, accepted: bool, rows: seq<Outcome<D>>, works: Works)
        returns (r: BatchResult, ghost ran: nat)
      requires engine.Valid()
      modifies engine
      ensures engine.Valid()
      ensures (engine.State(), r) ==
        if closed || !accepted || !Writes(sql) then (old(engine.State()), Refused)
        else BatchOf(old(engine.State()), rows, works)
      ensures ran == if r != Refused && Starts(old(engine.State()), rows, works) then Attempted(rows) else 0
    {
      hide Attempted, Writes, Settled;
      ran := 0;
      if closed || !accepted {
        return Refused, ran;
      }
      var write := IsWrite(sql);
      if !write {
        return Refused, ran;
      }
      if rows == [] {
        return BatchOk, ran;
      }
      var hadPending := !engine.autoCommit;
      if !hadPending {
        var begun := engine.Begin(works.begin);
        if !begun {
          return ControlFailed, ran;
        }
      }
      var marked := engine.Savepoint(works.savepoint);
      if !marked {
        return ControlFailed, ran;
      }
      var written;
      written, ran := WriteRows(rows);
      r := Settle(written, hadPending, works, old(engine.State()), rows[ran - 1]);
    }

    /** After the rows: release the savepoint, undo the rows, or report what the engine undid. */
    method Settle(written: bool, hadPending: bool, works: Works, ghost db: Db<D>, ghost last: Outcome<D>)
        returns (r: BatchResult)
      requires engine.Valid() && written == last.Done? && hadPending == !db.autoCommit
      requires engine.State() == Db(db.durable, db.current, false, db.marks + [db.current]).Written(last)
      modifies engine
      ensures engine.Valid() && (engine.State(), r) == Settled(db, last, works) && r != Refused
    {
      if written {
        var released := engine.Release(works.release);
        r := if released then BatchOk else ReleaseFailed;
      } else if engine.autoCommit {
        r := if hadPending then EarlierWritesLost else RowFailedRolledBack;
      } else {
        var undone := engine.RollbackTo(works.rollbackTo);
        if !undone {
          return UndoFailed;
        }
        var released := engine.Release(works.releaseAfter);
        r := if released then RowFailed else UndoFailed;
      }
    }

    /** Rows in order up to the first that fails; none runs after the engine gave up. */
    method WriteRows(rows: seq<Outcome<D>>) returns (written: bool, ghost ran: nat)
      requires engine.Valid() && !engine.autoCommit && rows != []
      modifies engine
      ensures engine.Valid() && ran == Attempted(rows) && written == rows[ran - 1].Done?
      ensures engine.State() == old(engine.State()).Written(rows[ran - 1])
    {
      hide Attempted;
      ran := 0;
      written := true;
      for i := 0 to |rows|
        invariant engine.Valid() && engine.durable == old(engine.durable) && !engine.autoCommit
        invariant engine.marks == old(engine.marks) && written
        invariant ran == i && forall k | 0 <= k < i :: rows[k].Done?
        invariant i > 0 ==> engine.current == rows[i - 1].after
      {
        written := engine.Write(rows[i]);
        ran := ran + 1;
        if !written {
          break;
        }
      }
    }

    method FinishTransaction(commit: bool, works: bool) returns (ok: bool)
      requires engine.Valid()
      modifies engine
      ensures engine.Valid()
      ensures (engine.State(), ok) == if closed then (old(engine.State()), false)
        else FinishOf(old(engine.State()), commit, works)
      ensures ok <==> !closed && (old(engine.autoCommit) || works)
      ensures !ok || old(engine.autoCommit) ==> engine.State() == old(engine.State())
      ensures ok ==> engine.autoCommit && engine.marks == [] && engine.current == engine.durable
      ensures ok ==> engine.durable == if commit then old(engine.current) else old(engine.durable)
    {
      if closed {
        return false;
      }
      if engine.autoCommit {
        return true;
      }
      if commit {
        ok := engine.Commit(works);
      } else {
        ok := engine.Rollback(works);
      }
    }

    method Close(works: bool) returns (ok: bool)
      requires engine.Valid()
      modifies engine, `closed
      ensures engine.Valid() && closed == ok
      ensures (engine.State(), ok) == if old(closed) then (old(engine.State()), true)
        else FinishOf(old(engine.State()), false, works)
      ensures ok <==> old(closed) || old(engine.autoCommit) || works
      ensures !ok || old(closed) || old(engine.autoCommit) ==> engine.State() == old(engine.State())
      ensures engine.durable == old(engine.durable)
      ensures ok && !old(closed) ==> engine.autoCommit && engine.marks == [] && engine.current == engine.durable
    {
      if closed {
        return true;
      }
      ok := FinishTransaction(false, works);
      if ok { closed := true; }
    }
  }

  // ---------- whole invocations ----------

  /** A statement of a script, with what the engine answers. */
  datatype Op<D> =
    | Connect
    | Execute(handle: nat, sql: string, accepted: bool, begin: bool, outcome: Outcome<D>)
    | ExecuteMany(handle: nat, sql: string, accepted: bool, rows: seq<Outcome<D>>, controls: Works)
    | Finish(handle: nat, commit: bool, works: bool)
    | Close(handle: nat, works: bool)

  /** The database and which of the handles are closed. */
  datatype Session<D(==)> = Session(db: Db<D>, closed: seq<bool>)
  {
    predicate IsOpen(handle: nat) { handle < |closed| && !closed[handle] }
  }

  function StepOf<D(==)>(s: Session<D>, op: Op<D>): Session<D> {
    if op.Connect? then s.(closed := s.closed + [false])
    else if !s.IsOpen(op.handle) then s
    else match op
      case Execute(_, sql, accepted, begin, outcome) =>
        if accepted then s.(db := ExecuteOf(s.db, sql, begin, outcome)) else s
      case ExecuteMany(_, sql, accepted, rows, controls) =>
        if accepted && Writes(sql) then s.(db := BatchOf(s.db, rows, controls).0) else s
      case Finish(_, commit, works) => s.(db := FinishOf(s.db, commit, works).0)
      case Close(h, works) =>
        var (db, done) := FinishOf(s.db, false, works);
        Session(db, s.closed[h := done])
  }

  function RunOf<D(==)>(s: Session<D>, script: seq<Op<D>>): Session<D> {
    if script == [] then s else StepOf(RunOf(s, script[..|script| - 1]), script[|script| - 1])
  }

  /** The call is a commit that succeeds. */
  predicate Commits<D(==)>(s: Session<D>, op: Op<D>) {
    op.Finish? && op.commit && s.IsOpen(op.handle) && (s.db.autoCommit || op.works)
  }

  /** What the connection saw at each successful commit of a run. */
  function CommitsOf<D(==)>(s: Session<D>, script: seq<Op<D>>): seq<D> {
    if script == [] then []
    else
      var before, op := script[..|script| - 1], script[|script| - 1];
      var now := RunOf(s, before);
      CommitsOf(s, before) + if Commits(now, op) then [now.db.current] else []
  }

  function Last<D>(first: D, commits: seq<D>): D {
    if commits == [] then first else commits[|commits| - 1]
  }

  lemma StepDurable<D>(s: Session<D>, op: Op<D>)
    requires s.db.Sound()
    ensures StepOf(s, op).db.Sound()
    ensures StepOf(s, op).db.durable == if Commits(s, op) then s.db.current else s.db.durable
  {
    if op.ExecuteMany? { BatchIsAllOrNothing(s.db, op.rows, op.controls); }
  }

  /** Over every run, what is durable is what the connection saw at the last successful commit. */
  lemma {:induction false} DurableIsLastCommit<D>(s: Session<D>, script: seq<Op<D>>)
    requires s.db.Sound()
    ensures RunOf(s, script).db.Sound()
    ensures RunOf(s, script).db.durable == Last(s.db.durable, CommitsOf(s, script))
  {
    if script != [] {
      var before := script[..|script| - 1];
      DurableIsLastCommit(s, before);
      StepDurable(RunOf(s, before), script[|script| - 1]);
    }
  }

  /** The run that goes on with one more call. */
  lemma OneMoreCall<D>(s: Session<D>, script: seq<Op<D>>, op: Op<D>)
    ensures RunOf(s, script + [op]) == StepOf(RunOf(s, script), op)
  {
    assert (script + [op])[..|script|] == script;
  }

  /** After any run, a write that succeeds is what the connection sees, and a commit that works makes
      it durable; a rollback that works discards it instead. */
  lemma WrittenThenFinished<D>(s: Session<D>, script: seq<Op<D>>, h: nat, sql: string, begin: bool, x: D, commit: bool)
    requires s.db.Sound() && Writes(sql)
    requires var now := RunOf(s, script); now.IsOpen(h) && (now.db.autoCommit ==> begin)
    ensures var now := RunOf(s, script);
      var written := RunOf(s, script + [Execute(h, sql, true, begin, Done(x))]);
      && written.db == Db(now.db.durable, x, false, now.db.marks) && written.closed == now.closed
    ensures var now := RunOf(s, script);
      var ended := RunOf(s, script + [Execute(h, sql, true, begin, Done(x))] + [Finish(h, commit, true)]);
      && ended.db.durable == ended.db.current == (if commit then x else now.db.durable)
      && ended.db.autoCommit && ended.db.marks == [] && ended.closed == now.closed
  {
    hide Writes;
    var call := Execute(h, sql, true, begin, Done(x));
    OneMoreCall(s, script, call);
    OneMoreCall(s, script + [call], Finish(h, commit, true));
    DurableIsLastCommit(s, script);
  }

  /** The same for a batch whose rows and control statements all work. */
  lemma BatchThenFinished<D>(s: Session<D>, script: seq<Op<D>>, h: nat, sql: string, rows: seq<Outcome<D>>,
                             works: Works, commit: bool)
    requires s.db.Sound() && Writes(sql) && AllDone(rows) && works.release
    requires var now := RunOf(s, script); now.IsOpen(h) && Starts(now.db, rows, works)
    ensures var now := RunOf(s, script);
      var ended := RunOf(s, script + [ExecuteMany(h, sql, true, rows, works)] + [Finish(h, commit, true)]);
      && ended.db.durable == ended.db.current == (if commit then rows[|rows| - 1].after else now.db.durable)
      && ended.db.autoCommit && ended.db.marks == [] && ended.closed == now.closed
  {
    hide Writes, BatchOf;
    var call := ExecuteMany(h, sql, true, rows, works);
    OneMoreCall(s, script, call);
    OneMoreCall(s, script + [call], Finish(h, commit, true));
    DurableIsLastCommit(s, script);
    BatchIsAllOrNothing(RunOf(s, script).db, rows, works);
  }

  /** Closing an open handle discards what is pending and closes that handle alone, or, when the
      rollback fails, changes nothing. A closed handle changes nothing at all. */
  lemma ClosedHandle<D>(s: Session<D>, script: seq<Op<D>>, op: Op<D>)
    requires s.db.Sound() && !op.Connect?
    ensures !RunOf(s, script).IsOpen(op.handle) ==> RunOf(s, script + [op]) == RunOf(s, script)
    ensures op.Close? && RunOf(s, script).IsOpen(op.handle) ==>
      var now := RunOf(s, script);
      RunOf(s, script + [op]) ==
        if now.db.autoCommit || op.works
        then Session(Db(now.db.durable, now.db.durable, true, []), now.closed[op.handle := true])
        else now
  {
    OneMoreCall(s, script, op);
    DurableIsLastCommit(s, script);
    var now := RunOf(s, script);
    if now.IsOpen(op.handle) { assert now.closed[op.handle := false] == now.closed; }
  }

  /** What is left when an invocation has ended: a pending transaction is rolled back if that works. */
  function Ended<D>(db: Db<D>, rollbackWorks: bool): Db<D> {
    if db.autoCommit || !rollbackWorks then db else db.Undone()
  }

  /** The handles are those of the session. */
  ghost predicate Tracks<D>(engine: Engine<D>, handles: seq<SqlConnection<D>>, s: Session<D>)
    reads engine, handles
  {
    && engine.Valid() && engine.State() == s.db && |handles| == |s.closed|
    && (forall i, j | 0 <= i < j < |handles| :: handles[i] != handles[j])
    && forall i | 0 <= i < |handles| :: handles[i].engine == engine && handles[i].closed == s.closed[i]
  }

  /** `with_connection` around any script, however it ends: what is durable afterwards is what the
      connection saw at the last successful commit, and on success nothing is pending. */
  method WithConnection<D(==)>(engine: Engine<D>, script: seq<Op<D>>, rollbackWorks: bool) returns (ok: bool)
    requires engine.Valid()
    modifies engine
    ensures engine.Valid()
    ensures engine.State() == Ended(RunOf(Session(old(engine.State()), []), script).db, rollbackWorks)
    ensures engine.durable == Last(old(engine.durable), CommitsOf(Session(old(engine.State()), []), script))
    ensures ok <==> RunOf(Session(old(engine.State()), []), script).db.autoCommit || rollbackWorks
    ensures ok ==> engine.autoCommit && engine.current == engine.durable && engine.marks == []
  {
    ghost var start := Session(engine.State(), []);
    var handles: seq<SqlConnection<D>> := [];
    assert script[..0] == [];
    for i := 0 to |script|
      invariant forall k | 0 <= k < |handles| :: fresh(handles[k])
      invariant Tracks(engine, handles, RunOf(start, script[..i]))
    {
      assert script[..i + 1][..i] == script[..i];
      handles := Perform(engine, handles, script[i], RunOf(start, script[..i]));
    }
    assert script[..|script|] == script;
    DurableIsLastCommit(start, script);
    ok := true;
    if !engine.autoCommit {
      ok := engine.Rollback(rollbackWorks);
    }
  }

  /** One call of a script; a handle that does not exist cannot be used. */
  method Perform<D(==)>(engine: Engine<D>, handles: seq<SqlConnection<D>>, op: Op<D>, ghost s: Session<D>)
    returns (handles': seq<SqlConnection<D>>)
    requires Tracks(engine, handles, s)
    modifies engine, handles
    ensures Tracks(engine, handles', StepOf(s, op))
    ensures forall k | 0 <= k < |handles'| :: handles'[k] in handles || fresh(handles'[k])
  {
    hide Writes, ExecuteOf, BatchOf, FinishOf;
    handles' := handles;
    match op {
      case Connect =>
        var handle := new SqlConnection(engine);
        handles' := handles + [handle];
      case Execute(h, sql, accepted, begin, outcome) =>
        if h < |handles| {
          var done := handles[h].Execute(sql, accepted, begin, outcome);
        }
      case ExecuteMany(h, sql, accepted, rows, controls) =>
        if h < |handles| {
          var done; ghost var ran;
          done, ran := handles[h].ExecuteMany(sql, accepted, rows, controls);
        }
      case Finish(h, commit, works) =>
        if h < |handles| {
          var done := handles[h].FinishTransaction(commit, works);
        }
      case Close(h, works) =>
        if h < |handles| {
          var done := handles[h].Close(works);
        }
    }
  }

  // ---------- cursors ----------

  datatype Fetched<Row> = ConnectionClosed | Rows(rows: seq<Row>)

  /** Rows are handed out once, in order, while the connection is open. */
  class Cursor<D(==), Row> {
    const connection: SqlConnection<D>
    const rows: seq<Row>
    var index: nat

    ghost predicate Valid()
      reads this
    {
      index <= |rows|
    }

    constructor (connection: SqlConnection<D>, rows: seq<Row>)
      ensures Valid() && this.connection == connection && this.rows == rows && index == 0
    {
      this.connection, this.rows, index := connection, rows, 0;
    }

    /** The next row, if any; None in the source is no row here. */
    method FetchOne() returns (r: Fetched<Row>)
      requires Valid()
      modifies this
      ensures Valid() && (r == ConnectionClosed <==> connection.closed)
      ensures r == ConnectionClosed ==> unchanged(this)
      ensures r.Rows? ==>
        r.rows + rows[index..] == old(rows[index..]) && |r.rows| == if old(index) < |rows| then 1 else 0
    {
      if connection.closed {
        return ConnectionClosed;
      }
      if index < |rows| {
        r := Rows([rows[index]]);
        index := index + 1;
      } else {
        r := Rows([]);
      }
    }

    method FetchAll() returns (r: Fetched<Row>)
      requires Valid()
      modifies this
      ensures Valid() && (r == ConnectionClosed <==> connection.closed)
      ensures r == ConnectionClosed ==> unchanged(this)
      ensures r.Rows? ==> r.rows == old(rows[index..]) && index == |rows|
    {
      if connection.closed {
        return ConnectionClosed;
      }
      r := Rows(rows[index..]);
      index := |rows|;
    }
  }
}
