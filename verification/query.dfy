/**
 * The read side of the log handlers, as the SQL engine evaluates
 * `SELECT description, duration, date FROM exercises WHERE user_id = ? [AND date >= ?] [AND date <= ?]
 *  [ORDER BY date ASC] [LIMIT ?]`: a filter, a projection, an optional sort and an optional take.
 */
module Query {
  import opened Wrappers
  import opened Dates
  import opened Storage
  import opened Http

  /** The WHERE clause: the owner, and the optional lower and upper date bounds (both inclusive). */
  predicate Matches(e: Exercise, userId: int, lo: Option<Instant>, hi: Option<Instant>)
  {
    && e.userId == userId
    && (lo.Some? ==> AtOrBefore(lo.value, e.date))
    && (hi.Some? ==> AtOrBefore(e.date, hi.value))
  }

  /** The rows that satisfy the WHERE clause, in table order. */
  function Where(rows: seq<Exercise>, userId: int, lo: Option<Instant>, hi: Option<Instant>): (r: seq<Exercise>)
    ensures forall e :: e in r <==> e in rows && Matches(e, userId, lo, hi)
    ensures |r| <= |rows|
  {
    if rows == [] then []
    else (if Matches(rows[0], userId, lo, hi) then [rows[0]] else []) + Where(rows[1..], userId, lo, hi)
  }

  /** The filter keeps every matching row as often as the table holds it, and nothing else. */
  lemma {:induction false} WhereMultiplicity(rows: seq<Exercise>, userId: int, lo: Option<Instant>, hi: Option<Instant>)
    ensures forall e :: multiset(Where(rows, userId, lo, hi))[e]
                        == if Matches(e, userId, lo, hi) then multiset(rows)[e] else 0
  {
    if rows != [] {
      WhereMultiplicity(rows[1..], userId, lo, hi);
      assert rows == [rows[0]] + rows[1..];
    }
  }

  function Entry(e: Exercise): LogEntry
  {
    LogEntry(e.description, e.duration, e.date)
  }

  /** The projection onto the selected columns, row by row. */
  function Entries(rows: seq<Exercise>): (r: seq<LogEntry>)
    ensures |r| == |rows|
    ensures forall i :: 0 <= i < |rows| ==> r[i] == Entry(rows[i])
  {
    if rows == [] then [] else [Entry(rows[0])] + Entries(rows[1..])
  }

  /** Ascending by date. */
  predicate Chronological(log: seq<LogEntry>)
  {
    forall i, j :: 0 <= i < j < |log| ==> AtOrBefore(log[i].date, log[j].date)
  }

  /** Places `x` before the first entry that is not earlier than it. */
  function Insert(x: LogEntry, log: seq<LogEntry>): (r: seq<LogEntry>)
    ensures multiset(r) == multiset(log) + multiset{x}
    ensures forall y :: y in r ==> y == x || y in log
  {
    if log == [] then [x]
    else if AtOrBefore(x.date, log[0].date) then [x] + log
    else
      assert log == [log[0]] + log[1..];
      [log[0]] + Insert(x, log[1..])
  }

  /** Inserting into an ascending log keeps it ascending. */
  lemma {:induction false} InsertChronological(x: LogEntry, log: seq<LogEntry>)
    requires Chronological(log)
    ensures Chronological(Insert(x, log))
  {
    if log == [] {
    } else if AtOrBefore(x.date, log[0].date) {
      var r := [x] + log;
      forall i, j | 0 <= i < j < |r|
        ensures AtOrBefore(r[i].date, r[j].date)
      {
        if i == 0 && j > 1 {
          AtOrBeforeTransitive(x.date, log[0].date, log[j - 1].date);
        }
      }
    } else {
      var rest := Insert(x, log[1..]);
      InsertChronological(x, log[1..]);
      AtOrBeforeTotal(x.date, log[0].date);
      var r := [log[0]] + rest;
      forall i, j | 0 <= i < j < |r|
        ensures AtOrBefore(r[i].date, r[j].date)
      {
        if i == 0 {
          assert r[j] in rest;
        } else {
          assert r[i] == rest[i - 1] && r[j] == rest[j - 1];
        }
      }
    }
  }

  /**
   * `ORDER BY date ASC`. The engine does not fix the order of equal dates; this sort keeps
   * them in table order, which is one of the orders the engine may produce.
   */
  function OrderByDate(log: seq<LogEntry>): (r: seq<LogEntry>)
    ensures multiset(r) == multiset(log)
    ensures Chronological(r)
  {
    if log == [] then []
    else
      assert log == [log[0]] + log[1..];
      var rest := OrderByDate(log[1..]);
      InsertChronological(log[0], rest);
      Insert(log[0], rest)
  }

  /** `if (limit && !isNaN(limit))`: the LIMIT clause is added only for a non-zero parsed limit. */
  function LimitClause(limit: Option<int>): Option<int>
  {
    if limit.Some? && limit.value != 0 then limit else None
  }

  /** SQLite's `LIMIT n`: at most `n` rows; a negative `n` imposes no bound. */
  function Limit(log: seq<LogEntry>, clause: Option<int>): (r: seq<LogEntry>)
    ensures |r| <= |log| && r == log[..|r|]
    ensures clause.Some? && clause.value >= 0 ==> |r| == (if clause.value < |log| then clause.value else |log|)
    ensures clause.None? || clause.value < 0 ==> |r| == |log|
  {
    if clause.Some? && 0 <= clause.value < |log| then log[..clause.value] else log
  }

  /** Whether a parsed limit actually drops rows from a result of `n` rows. */
  predicate Cuts(limit: Option<int>, n: nat)
  {
    limit.Some? && 0 < limit.value < n
  }

  lemma LimitShape(log: seq<LogEntry>, limit: Option<int>)
    ensures var r := Limit(log, LimitClause(limit));
      && r == log[..|r|]
      && (Cuts(limit, |log|) <==> |r| < |log|)
      && (Cuts(limit, |log|) ==> |r| == limit.value)
      && (limit.Some? && limit.value > 0 ==> |r| <= limit.value)
  {
  }

  /** A prefix of an ascending log is ascending. */
  lemma PrefixChronological(log: seq<LogEntry>, n: nat)
    requires Chronological(log) && n <= |log|
    ensures Chronological(log[..n])
  {
  }
}
