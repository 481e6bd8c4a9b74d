/** The classification log: one row per classified e-mail with an `is_read`
    flag, kept here as an in-memory table instead of SQLite. Timestamps are
    ISO-8601 strings and compare as strings, as the SQL comparisons on the
    TEXT column do. */
module Database {
  import opened Wrappers
  import opened Strings
  import opened Sorting
  import opened Dicts

  datatype LogRow = LogRow(
    id: int, timestamp: string, sender: string, recipient: string, subject: string,
    predictedCategory: string, confidenceScore: real, isRead: bool)

  function Timestamp(row: LogRow): string { row.timestamp }

  predicate IsUnread(row: LogRow) { !row.isRead }

  /** The optional inclusive bounds of a time-window query. */
  predicate InWindow(ts: string, start: Option<string>, end: Option<string>) {
    (start.None? || LessEq(start.value, ts)) && (end.None? || LessEq(ts, end.value))
  }

  /** The rows a `WHERE` clause keeps, in table order. */
  function Select(rows: seq<LogRow>, keep: LogRow -> bool): (r: seq<LogRow>)
    ensures |r| <= |rows|
    ensures forall x :: x in r <==> x in rows && keep(x)
  {
    if rows == [] then []
    else
      var init := Select(rows[..|rows| - 1], keep);
      var last := rows[|rows| - 1];
      assert rows == rows[..|rows| - 1] + [last];
      if keep(last) then init + [last] else init
  }

  lemma SameMembers(a: seq<LogRow>, b: seq<LogRow>)
    requires multiset(a) == multiset(b)
    ensures forall x :: x in a <==> x in b
  {
    assert forall x :: x in a <==> x in multiset(a);
    assert forall x :: x in b <==> x in multiset(b);
  }

  lemma {:induction false} SelectNothing(rows: seq<LogRow>, keep: LogRow -> bool)
    requires forall i :: 0 <= i < |rows| ==> !keep(rows[i])
    ensures Select(rows, keep) == []
  {
    if rows != [] {
      SelectNothing(rows[..|rows| - 1], keep);
    }
  }

  /** `get_unread_notifications`: the unread rows, newest first. */
  function UnreadOf(rows: seq<LogRow>): (r: seq<LogRow>)
    ensures forall x :: x in r <==> x in rows && !x.isRead
    ensures multiset(r) == multiset(Select(rows, IsUnread))
    ensures DescendingBy(r, Timestamp)
  {
    var r := SortDescendingBy(Select(rows, IsUnread), Timestamp);
    SameMembers(r, Select(rows, IsUnread));
    r
  }

  /** The filter of `get_read_notifications`: read, and stamped within
      `[start, end]`. */
  function ReadIn(start: string, end: string): LogRow -> bool {
    (x: LogRow) => x.isRead && InWindow(x.timestamp, Some(start), Some(end))
  }

  /** `get_read_notifications`: the read rows stamped within `[start, end]`,
      newest first. */
  function ReadBetween(rows: seq<LogRow>, start: string, end: string): (r: seq<LogRow>)
    ensures forall x :: x in r <==>
      x in rows && x.isRead && LessEq(start, x.timestamp) && LessEq(x.timestamp, end)
    ensures multiset(r) == multiset(Select(rows, ReadIn(start, end)))
    ensures DescendingBy(r, Timestamp)
  {
    var r := SortDescendingBy(Select(rows, ReadIn(start, end)), Timestamp);
    SameMembers(r, Select(rows, ReadIn(start, end)));
    r
  }

  /** The number of rows of category `c` stamped within the window. */
  function CountIn(rows: seq<LogRow>, c: string, start: Option<string>, end: Option<string>): nat {
    |Select(rows, (x: LogRow) => x.predictedCategory == c && InWindow(x.timestamp, start, end))|
  }

  /** `get_stats`: `GROUP BY predicted_category` within the window, the
      categories in order of first appearance. */
  function StatsOf(rows: seq<LogRow>, start: Option<string>, end: Option<string>): (r: Dict<string, int>)
    ensures DistinctKeys(r)
  {
    if rows == [] then []
    else
      var last := rows[|rows| - 1];
      Tally(StatsOf(rows[..|rows| - 1], start, end), last.predictedCategory, InWindow(last.timestamp, start, end))
  }

  /** One row of category `c` goes into the counts when it lies in the
      window. */
  function Tally(d: Dict<string, int>, c: string, inWindow: bool): (r: Dict<string, int>)
    requires DistinctKeys(d)
    ensures DistinctKeys(r)
  {
    if inWindow then
      PutDistinct(d, c, Get(d, c).GetOr(0) + 1);
      Put(d, c, Get(d, c).GetOr(0) + 1)
    else d
  }

  /** Each category present in the window maps to its number of rows, read
      and unread alike; no other category appears. */
  lemma {:induction false} StatsCounts(rows: seq<LogRow>, start: Option<string>, end: Option<string>, c: string)
    ensures Get(StatsOf(rows, start, end), c) ==
            if CountIn(rows, c, start, end) > 0 then Some(CountIn(rows, c, start, end) as int) else None
  {
    if rows != [] {
      var init := rows[..|rows| - 1];
      var last := rows[|rows| - 1];
      var n := CountIn(init, c, start, end);
      assert CountIn(rows, c, start, end) ==
             n + if last.predictedCategory == c && InWindow(last.timestamp, start, end) then 1 else 0 by {
        CountStep(rows, c, start, end);
      }
      var d := StatsOf(init, start, end);
      assert Get(d, c) == if n > 0 then Some(n as int) else None by {
        StatsCounts(init, start, end, c);
      }
      var inWindow := InWindow(last.timestamp, start, end);
      assert StatsOf(rows, start, end) == Tally(d, last.predictedCategory, inWindow);
      TallyGet(d, last.predictedCategory, inWindow, c);
    } else {
      assert CountIn(rows, c, start, end) == 0;
    }
  }

  /** Tallying a row adds one to its own category and leaves the others. */
  lemma TallyGet(d: Dict<string, int>, k: string, inWindow: bool, c: string)
    requires DistinctKeys(d)
    ensures Get(Tally(d, k, inWindow), c) ==
            if inWindow && c == k then Some(Get(d, k).GetOr(0) + 1) else Get(d, c)
  {
    if inWindow {
      PutGet(d, k, Get(d, k).GetOr(0) + 1, c);
    }
  }

  /** The last row adds one to its category's count when it lies in the
      window. */
  lemma CountStep(rows: seq<LogRow>, c: string, start: Option<string>, end: Option<string>)
    requires rows != []
    ensures CountIn(rows, c, start, end) ==
            CountIn(rows[..|rows| - 1], c, start, end) +
            if rows[|rows| - 1].predictedCategory == c && InWindow(rows[|rows| - 1].timestamp, start, end) then 1 else 0
  {
  }

  /** An empty table gives no statistics. */
  lemma StatsOfEmpty(start: Option<string>, end: Option<string>, c: string)
    ensures Get(StatsOf([], start, end), c).None?
  {
    StatsCounts([], start, end, c);
  }

  /** The rows an acknowledgement marks: the listed ids, or every unread row
      when the list is missing or empty. */
  function Selector(ids: Option<seq<int>>): LogRow -> bool {
    if ids.Some? && ids.value != [] then (x: LogRow) => x.id in ids.value else IsUnread
  }

  function MarkRead(row: LogRow): (r: LogRow)
    ensures r.isRead
  {
    row.(isRead := true)
  }

  /** The table after `UPDATE logs SET is_read = 1` on the rows `sel` keeps. */
  function Mark(rows: seq<LogRow>, sel: LogRow -> bool): (r: seq<LogRow>)
    ensures |r| == |rows|
    ensures forall i :: 0 <= i < |rows| ==> r[i] == if sel(rows[i]) then MarkRead(rows[i]) else rows[i]
  {
    if rows == [] then []
    else
      var last := rows[|rows| - 1];
      Mark(rows[..|rows| - 1], sel) + [if sel(last) then MarkRead(last) else last]
  }

  /** A table that agrees with `Mark` row by row is its result, and keeps
      every id. */
  lemma MarkPointwise(rows: seq<LogRow>, sel: LogRow -> bool, marked: seq<LogRow>)
    requires |marked| == |rows|
    requires forall k :: 0 <= k < |rows| ==> marked[k] == if sel(rows[k]) then MarkRead(rows[k]) else rows[k]
    ensures marked == Mark(rows, sel)
    ensures forall k :: 0 <= k < |rows| ==> marked[k].id == rows[k].id
  {
  }

  /** `ack_notifications(log_ids)`. */
  function AckSpec(rows: seq<LogRow>, ids: Option<seq<int>>): (r: seq<LogRow>)
    ensures |r| == |rows|
    ensures ids.Some? && ids.value != [] ==>
      forall i :: 0 <= i < |rows| ==> r[i] == if rows[i].id in ids.value then MarkRead(rows[i]) else rows[i]
    ensures ids.None? || ids.value == [] ==> forall i :: 0 <= i < |rows| ==> r[i] == MarkRead(rows[i])
  {
    var r := Mark(rows, Selector(ids));
    assert ids.None? || ids.value == [] ==> forall i :: 0 <= i < |rows| ==> rows[i].isRead ==> MarkRead(rows[i]) == rows[i];
    r
  }

  /** After acknowledging everything, nothing is unread. */
  lemma AckAllLeavesNothingUnread(rows: seq<LogRow>, ids: Option<seq<int>>)
    requires ids.None? || ids.value == []
    ensures UnreadOf(AckSpec(rows, ids)) == []
  {
    SelectNothing(AckSpec(rows, ids), IsUnread);
    assert |multiset(UnreadOf(AckSpec(rows, ids)))| == 0;
  }

  /** Acknowledging the same ids twice leaves the table as once. */
  lemma AckIdempotent(rows: seq<LogRow>, ids: Option<seq<int>>)
    ensures AckSpec(AckSpec(rows, ids), ids) == AckSpec(rows, ids)
  {
    var once := AckSpec(rows, ids);
    var twice := AckSpec(once, ids);
    forall i | 0 <= i < |rows| ensures twice[i] == once[i] {
      assert once[i].id == rows[i].id;
    }
  }

  /** Only the read flag changes: every other column of every row stays. */
  lemma AckKeepsColumns(rows: seq<LogRow>, ids: Option<seq<int>>, i: nat)
    requires i < |rows|
    ensures AckSpec(rows, ids)[i].(isRead := rows[i].isRead) == rows[i]
  {
  }

  /** Acknowledging never changes the statistics. */
  lemma {:induction false} AckKeepsStats(rows: seq<LogRow>, ids: Option<seq<int>>, start: Option<string>, end: Option<string>)
    ensures StatsOf(AckSpec(rows, ids), start, end) == StatsOf(rows, start, end)
  {
    if rows != [] {
      var init := rows[..|rows| - 1];
      AckKeepsStats(init, ids, start, end);
      var acked := AckSpec(rows, ids);
      assert acked[..|rows| - 1] == AckSpec(init, ids);
      assert acked[|rows| - 1].timestamp == rows[|rows| - 1].timestamp;
      assert acked[|rows| - 1].predictedCategory == rows[|rows| - 1].predictedCategory;
    }
  }

  function IdsOf(rows: seq<LogRow>): (r: seq<int>)
    ensures |r| == |rows| && forall i :: 0 <= i < |rows| ==> r[i] == rows[i].id
  {
    seq(|rows|, i requires 0 <= i < |rows| => rows[i].id)
  }

  /** `pop_unread_notifications`: acknowledge the ids of the unread rows
      read just before. */
  function PopSpec(rows: seq<LogRow>): seq<LogRow> {
    var unread := UnreadOf(rows);
    if unread != [] then AckSpec(rows, Some(IdsOf(unread))) else rows
  }

  lemma IdsOfMember(s: seq<LogRow>, x: LogRow)
    requires x in s
    ensures x.id in IdsOf(s)
  {
    var k :| 0 <= k < |s| && s[k] == x;
    assert IdsOf(s)[k] == x.id;
  }

  /** Acknowledging the ids of every unread row acknowledges everything. */
  lemma AckUnreadIds(rows: seq<LogRow>, unread: seq<LogRow>)
    requires unread != []
    requires forall x :: x in unread <==> x in rows && !x.isRead
    ensures AckSpec(rows, Some(IdsOf(unread))) == AckSpec(rows, None)
  {
    var acked := AckSpec(rows, Some(IdsOf(unread)));
    forall i | 0 <= i < |rows| ensures acked[i] == MarkRead(rows[i]) {
      if !rows[i].isRead {
        IdsOfMember(unread, rows[i]);
      }
    }
  }

  /** Popping has the effect of acknowledging everything. */
  lemma PopIsAckAll(rows: seq<LogRow>)
    ensures PopSpec(rows) == AckSpec(rows, None)
  {
    var unread := UnreadOf(rows);
    if unread != [] {
      AckUnreadIds(rows, unread);
    } else {
      forall i | 0 <= i < |rows| ensures rows[i].isRead {
        assert rows[i] !in unread;
      }
    }
  }

  /** After a pop nothing is unread, and no row changes except its flag. */
  lemma PopLeavesNothingUnread(rows: seq<LogRow>)
    ensures UnreadOf(PopSpec(rows)) == []
    ensures |PopSpec(rows)| == |rows|
    ensures forall i :: 0 <= i < |rows| ==> PopSpec(rows)[i] == MarkRead(rows[i])
  {
    PopIsAckAll(rows);
    AckAllLeavesNothingUnread(rows, None);
  }

  /** A row just added is unread and counted in its category. */
  lemma AddedRow(rows: seq<LogRow>, row: LogRow, start: Option<string>, end: Option<string>)
    requires !row.isRead
    ensures row in UnreadOf(rows + [row])
    ensures CountIn(rows + [row], row.predictedCategory, start, end) ==
            CountIn(rows, row.predictedCategory, start, end) + (if InWindow(row.timestamp, start, end) then 1 else 0)
  {
    assert (rows + [row])[..|rows|] == rows;
  }

  /** The table with the AUTOINCREMENT counter behind it. */
  class LogStore {
    var rows: seq<LogRow>
    var nextId: int

    /** Ids increase along the table and stay below the next one. */
    ghost predicate Valid()
      reads this
    {
      && 1 <= nextId
      && (forall i :: 0 <= i < |rows| ==> rows[i].id < nextId)
      && (forall i, j :: 0 <= i < j < |rows| ==> rows[i].id < rows[j].id)
    }

    constructor()
      ensures Valid() && rows == []
    {
      rows := [];
      nextId := 1;
    }

    /** `add_log`: one new unread row, stamped with the given time or, when
        none is given, with `now`. */
    method AddLog(sender: string, recipient: string, subject: string, predictedCategory: string,
                  confidenceScore: real, timestamp: Option<string>, now: string)
      requires Valid()
      modifies this
      ensures Valid()
      ensures rows == old(rows) + [LogRow(old(nextId), timestamp.GetOr(now), sender, recipient, subject,
                                          predictedCategory, confidenceScore, false)]
      ensures nextId > old(nextId)
    {
      var ts := if timestamp.Some? then timestamp.value else now;
      rows := rows + [LogRow(nextId, ts, sender, recipient, subject, predictedCategory, confidenceScore, false)];
      nextId := nextId + 1;
    }

    function Stats(start: Option<string>, end: Option<string>): Dict<string, int>
      reads this
    {
      StatsOf(rows, start, end)
    }

    function Unread(): seq<LogRow>
      reads this
    {
      UnreadOf(rows)
    }

    function ReadNotifications(start: string, end: string): seq<LogRow>
      reads this
    {
      ReadBetween(rows, start, end)
    }

    /** `ack_notifications`, row by row. */
    method Ack(ids: Option<seq<int>>)
      requires Valid()
      modifies this
      ensures Valid()
      ensures rows == AckSpec(old(rows), ids) && nextId == old(nextId)
    {
      var sel := Selector(ids);
      ghost var before := rows;
      for i := 0 to |rows|
        invariant |rows| == |before| && nextId == old(nextId)
        invariant forall k :: 0 <= k < i ==> rows[k] == if sel(before[k]) then MarkRead(before[k]) else before[k]
        invariant forall k :: i <= k < |rows| ==> rows[k] == before[k]
      {
        if sel(rows[i]) {
          rows := rows[i := MarkRead(rows[i])];
        }
      }
      MarkPointwise(before, sel, rows);
      assert rows == AckSpec(before, ids);
    }

    /** `pop_unread_notifications`: the unread rows, which are then
        acknowledged. */
    method Pop() returns (unread: seq<LogRow>)
      requires Valid()
      modifies this
      ensures Valid()
      ensures unread == UnreadOf(old(rows))
      ensures rows == PopSpec(old(rows)) && nextId == old(nextId)
    {
      unread := UnreadOf(rows);
      if unread != [] {
        Ack(Some(IdsOf(unread)));
      }
    }
  }
}
