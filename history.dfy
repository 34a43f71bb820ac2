/**
 * The releases table and what the History button shows of it: the ten newest releases
 * of the chat, newest first, each with its amounts written as money and its
 * released_at stamp shortened for display.
 */
module History {
  import opened Wrappers
  import opened Text
  import opened Money

  /** A row of the releases table; released_at is the isoformat() text of the release time. */
  datatype ReleaseRecord = ReleaseRecord(chat: int, total: int, fee: int, net: int, releasedBy: int, releasedAt: string)

  /** LIMIT 10 of the history query. */
  const HISTORY_LIMIT: nat := 10

  // ---------------------------------------------------------------------------
  // The query: WHERE chat_id = ? ORDER BY id DESC LIMIT 10
  // ---------------------------------------------------------------------------

  /** The releases of one chat, in insertion (id) order. */
  function ChatReleases(rs: seq<ReleaseRecord>, chat: int): seq<ReleaseRecord> {
    if rs == [] then []
    else ChatReleases(rs[..|rs| - 1], chat) + (if rs[|rs| - 1].chat == chat then [rs[|rs| - 1]] else [])
  }

  function Reverse<T>(s: seq<T>): (r: seq<T>)
    ensures |r| == |s| && forall i :: 0 <= i < |s| ==> r[i] == s[|s| - 1 - i]
  {
    seq(|s|, i requires 0 <= i < |s| => s[|s| - 1 - i])
  }

  function Take<T>(s: seq<T>, k: nat): (r: seq<T>)
    ensures |r| == if k < |s| then k else |s|
    ensures r == s[..|r|]
  {
    if k < |s| then s[..k] else s
  }

  /** The query as the database runs it: scan from the newest row, keep the chat's rows, stop after limit. */
  function NewestFirst(rs: seq<ReleaseRecord>, chat: int, limit: nat): seq<ReleaseRecord> {
    if rs == [] || limit == 0 then []
    else if rs[|rs| - 1].chat == chat then [rs[|rs| - 1]] + NewestFirst(rs[..|rs| - 1], chat, limit - 1)
    else NewestFirst(rs[..|rs| - 1], chat, limit)
  }

  /** The rows the History button lists for a chat. */
  function RecentReleases(rs: seq<ReleaseRecord>, chat: int): seq<ReleaseRecord> {
    NewestFirst(rs, chat, HISTORY_LIMIT)
  }

  /** A release is among the chat's releases exactly when it is in the table and belongs to the chat. */
  lemma {:induction false} ChatReleasesMembers(rs: seq<ReleaseRecord>, chat: int, x: ReleaseRecord)
    ensures x in ChatReleases(rs, chat) <==> x in rs && x.chat == chat
    decreases |rs|
  {
    if rs != [] {
      var init := rs[..|rs| - 1];
      ChatReleasesMembers(init, chat, x);
      assert rs == init + [rs[|rs| - 1]];
    }
  }

  /** The scan equals the chat's releases reversed and cut to the limit. */
  lemma {:induction false} NewestFirstIsReversedFilter(rs: seq<ReleaseRecord>, chat: int, limit: nat)
    ensures NewestFirst(rs, chat, limit) == Take(Reverse(ChatReleases(rs, chat)), limit)
    decreases |rs|
  {
    if rs != [] && limit != 0 {
      var init, last := rs[..|rs| - 1], rs[|rs| - 1];
      var f := ChatReleases(init, chat);
      if last.chat == chat {
        NewestFirstIsReversedFilter(init, chat, limit - 1);
        var rev := Reverse(f + [last]);
        assert rev == [last] + Reverse(f);
        assert Take(rev, limit) == [last] + Take(Reverse(f), limit - 1);
      } else {
        NewestFirstIsReversedFilter(init, chat, limit);
      }
    }
  }

  /**
   * The History listing: at most ten rows, all of the requesting chat, the newest first;
   * row i is the chat's i-th newest release, and fewer than ten rows means the chat has
   * no other release.
   */
  lemma HistoryNewestFirst(rs: seq<ReleaseRecord>, chat: int)
    ensures var r, f := RecentReleases(rs, chat), ChatReleases(rs, chat);
            && |r| == (if |f| < HISTORY_LIMIT then |f| else HISTORY_LIMIT)
            && (forall i :: 0 <= i < |r| ==> r[i] == f[|f| - 1 - i])
            && (forall i :: 0 <= i < |r| ==> r[i] in rs && r[i].chat == chat)
  {
    var r, f := RecentReleases(rs, chat), ChatReleases(rs, chat);
    NewestFirstIsReversedFilter(rs, chat, HISTORY_LIMIT);
    forall i | 0 <= i < |r| ensures r[i] in rs && r[i].chat == chat {
      ChatReleasesMembers(rs, chat, f[|f| - 1 - i]);
    }
  }

  /** A release just logged heads its chat's history, and leaves every other chat's history as it was. */
  lemma HistoryAfterRelease(rs: seq<ReleaseRecord>, rec: ReleaseRecord, chat: int)
    ensures |RecentReleases(rs + [rec], rec.chat)| > 0 && RecentReleases(rs + [rec], rec.chat)[0] == rec
    ensures chat != rec.chat ==> RecentReleases(rs + [rec], chat) == RecentReleases(rs, chat)
  {
    assert (rs + [rec])[..|rs|] == rs;
  }

  // ---------------------------------------------------------------------------
  // The displayed timestamp
  // ---------------------------------------------------------------------------

  /** The stamp as shown: every 'T' becomes a blank, everything from the first '.' on is cut, and "+00:00" becomes " UTC". */
  function RewriteTimestamp(at: string): string {
    ReplaceAll(Split(ReplaceAll(at, "T", " "), '.')[0], "+00:00", " UTC")
  }

  /** Whatever the stored text, the displayed stamp has no '.': the fraction of a second is gone. */
  lemma TimestampHasNoPoint(at: string)
    ensures '.' !in RewriteTimestamp(at)
  {
    ReplaceAllExcludes(Split(ReplaceAll(at, "T", " "), '.')[0], "+00:00", " UTC", '.');
  }

  /** A date or time field of isoformat(): digits with '-' or ':' between them, so no 'T', '.' or '+'. */
  predicate PlainField(s: string) {
    'T' !in s && '.' !in s && '+' !in s
  }

  /**
   * The ISO 8601 text of a UTC time as the bot stores it: date 'T' time, then '.' and the
   * microseconds unless they are zero, then the offset "+00:00".
   */
  function IsoFormat(date: string, time: string, micros: string): string {
    date + "T" + time + (if micros == "" then "" else "." + micros) + "+00:00"
  }

  /** With microseconds, the fraction is cut together with the offset: "date time", no UTC label. */
  lemma RewriteWithMicros(date: string, time: string, micros: string)
    requires PlainField(date) && PlainField(time) && |micros| > 0 && AllDigits(micros)
    ensures RewriteTimestamp(IsoFormat(date, time, micros)) == date + " " + time
    ensures 'T' !in RewriteTimestamp(IsoFormat(date, time, micros))
  {
    var tail := "." + micros + "+00:00";
    var spaced := SpaceAfterDate(date, time, tail);
    assert IsoFormat(date, time, micros) == date + "T" + (time + tail);
    assert spaced == (date + " " + time) + ['.'] + (micros + "+00:00");
    assert '.' !in date + " " + time;
    SplitHead(date + " " + time, '.', micros + "+00:00");
    Untouched(date + " " + time, "+00:00", " UTC");
  }

  /** Without microseconds, the offset survives the cut and becomes " UTC". */
  lemma RewriteWithoutMicros(date: string, time: string)
    requires PlainField(date) && PlainField(time)
    ensures RewriteTimestamp(IsoFormat(date, time, "")) == date + " " + time + " UTC"
  {
    var spaced := SpaceAfterDate(date, time, "+00:00");
    assert IsoFormat(date, time, "") == date + "T" + (time + "+00:00");
    assert '.' !in spaced;
    var head := date + " " + time;
    assert '+' !in head;
    ReplaceAllSkips(head, "+00:00", "+00:00", " UTC");
    assert ReplaceAll("+00:00", "+00:00", " UTC") == " UTC" + ReplaceAll("", "+00:00", " UTC");
  }

  /** replace("T", " ") turns the one 'T' between date and time into a blank and changes nothing else. */
  lemma SpaceAfterDate(date: string, time: string, tail: string) returns (spaced: string)
    requires PlainField(date) && PlainField(time) && 'T' !in tail
    ensures spaced == date + " " + time + tail
    ensures ReplaceAll(date + "T" + (time + tail), "T", " ") == spaced
  {
    spaced := date + " " + time + tail;
    assert date + "T" + (time + tail) == date + ("T" + (time + tail));
    ReplaceAllSkips(date, "T" + (time + tail), "T", " ");
    assert ("T" + (time + tail))[1..] == time + tail;
    assert 'T' !in time + tail;
    Untouched(time + tail, "T", " ");
  }

  /** A text that lacks the first character of the pattern is left as it is. */
  lemma Untouched(s: string, pat: string, rep: string)
    requires |pat| > 0 && pat[0] !in s
    ensures ReplaceAll(s, pat, rep) == s
  {
    ReplaceAllSkips(s, [], pat, rep);
    assert s + [] == s;
  }

  // ---------------------------------------------------------------------------
  // The listing
  // ---------------------------------------------------------------------------

  /** One bullet of the listing: total, fee and net as money, and the shortened stamp. */
  datatype HistoryLine = HistoryLine(total: string, fee: string, net: string, at: string)

  datatype HistoryView =
    | NoReleases                            // "No releases yet."
    | Listing(lines: seq<HistoryLine>)      // one line per row, in the query's order

  function LineOf(r: ReleaseRecord): HistoryLine {
    HistoryLine(CentsToMoneyStr(r.total), CentsToMoneyStr(r.fee), CentsToMoneyStr(r.net), RewriteTimestamp(r.releasedAt))
  }

  /**
   * The History screen for a set of rows: "No releases yet." or one line per row.
   * This is the specification RenderHistory is proved against.
   */
  function HistoryViewOf(rows: seq<ReleaseRecord>): HistoryView {
    if |rows| == 0 then NoReleases else Listing(seq(|rows|, i requires 0 <= i < |rows| => LineOf(rows[i])))
  }

  /** Builds the listing row by row, as the handler's loop does. */
  method RenderHistory(rows: seq<ReleaseRecord>) returns (view: HistoryView)
    ensures view == HistoryViewOf(rows)
    ensures view.NoReleases? <==> |rows| == 0
    ensures view.Listing? ==> |view.lines| == |rows| && forall i :: 0 <= i < |rows| ==> view.lines[i] == LineOf(rows[i])
  {
    if |rows| == 0 {
      view := NoReleases;
    } else {
      var lines := RenderLines(rows);
      view := Listing(lines);
    }
  }

  method RenderLines(rows: seq<ReleaseRecord>) returns (lines: seq<HistoryLine>)
    ensures |lines| == |rows| && forall i :: 0 <= i < |rows| ==> lines[i] == LineOf(rows[i])
  {
    lines := [];
    for i := 0 to |rows|
      invariant |lines| == i
      invariant forall j :: 0 <= j < i ==> lines[j] == LineOf(rows[j])
    {
      lines := lines + [LineOf(rows[i])];
    }
  }

  /** Every line gives back its release: the money texts read back as the amounts, and the stamp has no '.'. */
  lemma LineReadsBack(r: ReleaseRecord)
    requires r.total >= 0 && r.fee >= 0 && r.net >= 0
    ensures MoneyToCents(LineOf(r).total) == Ok(r.total)
    ensures MoneyToCents(LineOf(r).fee) == Ok(r.fee)
    ensures MoneyToCents(LineOf(r).net) == Ok(r.net)
    ensures '.' !in LineOf(r).at
  {
    MoneyRoundTrip(r.total);
    MoneyRoundTrip(r.fee);
    MoneyRoundTrip(r.net);
    TimestampHasNoPoint(r.releasedAt);
  }
}
