/**
 * The export path of the GitLab time tracker's `Application`: the format
 * guard, the cache check, and the projection of every cached issue into one
 * flat row whose estimate and spent durations are rendered as "XhYm".
 *
 * The cache file is a parameter: `None` when data/gitlab_response.json does
 * not exist, `Some(issues)` holding its decoded contents when it does. The
 * result of `show` is what it prints or hands to the CSV writer.
 */
module App {
  import opened Wrappers
  import opened Durations

  /** The `assignee` object of a GitLab issue; only its name is read. */
  datatype Assignee = Assignee(name: string)

  /** One cached GitLab issue, restricted to the fields `show` reads
      (`iid`, `title`, `assignee`, and the four `time_stats` entries).
      GitLab sends `null` for a human-readable duration when no time is set. */
  datatype Issue = Issue(
    iid: int,
    title: string,
    assignee: Option<Assignee>,
    timeEstimate: nat,
    totalTimeSpent: nat,
    humanTimeEstimate: Option<string>,
    humanTotalTimeSpent: Option<string>)

  /** One row handed to the CSV export. */
  datatype Row = Row(
    issueId: int,
    title: string,
    estimate: string,
    spent: string,
    estimateHuman: Option<string>,
    spentHuman: Option<string>,
    user: Option<string>)

  /** What `show` ends with: the unsupported-format message with the list of
      supported formats, the "Failed to synchronise with remote" message, or
      the rows written to data/gitlab_time_tracking.csv. */
  datatype ShowOutcome =
    | Unsupported(format: string, supported: seq<string>)
    | SyncFailed
    | Exported(rows: seq<Row>)

  /** The row one issue becomes: the identifier, the title and GitLab's own
      human-readable durations are copied unchanged, and the user is the
      assignee's name when there is an assignee and absent otherwise. */
  function ProjectIssue(issue: Issue): (r: Row)
    ensures r.issueId == issue.iid && r.title == issue.title
    ensures r.estimateHuman == issue.humanTimeEstimate && r.spentHuman == issue.humanTotalTimeSpent
    ensures r.user.Some? <==> issue.assignee.Some?
    ensures issue.assignee.Some? ==> r.user.value == issue.assignee.value.name
  {
    Row(
      issue.iid,
      issue.title,
      RenderDuration(issue.timeEstimate),
      RenderSpent(issue.timeEstimate, issue.totalTimeSpent),
      issue.humanTimeEstimate,
      issue.humanTotalTimeSpent,
      if issue.assignee.Some? then Some(issue.assignee.value.name) else None)
  }

  /** A row's estimate recovers the issue's estimated hours and minutes;
      its spent string (as written) recovers no hours at all, only the
      spent minutes within the hour. */
  lemma ProjectIssueDurations(issue: Issue)
    ensures ParseDuration(ProjectIssue(issue).estimate)
         == Some((HoursOf(issue.timeEstimate), MinutesOf(issue.timeEstimate)))
    ensures ParseDuration(ProjectIssue(issue).spent) == Some((0, MinutesOf(issue.totalTimeSpent)))
  {
    RenderDurationRoundTrip(issue.timeEstimate);
    ParseSegments(MinutesOf(issue.timeEstimate) / MinutesPerHour, MinutesOf(issue.totalTimeSpent));
  }

  /** How `show` builds `time_estimate_show` and `time_spent_show`: start
      empty, set the hour segment when the hours are positive, then append
      the minute segment when the minutes are positive. */
  method BuildShown(hour: nat, minute: nat) returns (shown: string)
    ensures shown == Segments(hour, minute)
  {
    shown := "";
    if hour > 0 {
      shown := DecimalString(hour) + "h";
    }
    if minute > 0 {
      shown := shown + DecimalString(minute) + "m";
    }
  }

  /** The loop of `show`: one row per cached issue, appended in input order,
      with the two duration strings built up segment by segment. */
  method ProjectRows(issues: seq<Issue>) returns (rows: seq<Row>)
    ensures |rows| == |issues|
    ensures forall k :: 0 <= k < |issues| ==> rows[k] == ProjectIssue(issues[k])
  {
    rows := [];
    for i := 0 to |issues|
      invariant |rows| == i
      invariant forall k :: 0 <= k < i ==> rows[k] == ProjectIssue(issues[k])
    {
      var issue := issues[i];

      var estimateMin := issue.timeEstimate / SecondsPerMinute % MinutesPerHour;
      var estimateHour := issue.timeEstimate / SecondsPerHour;
      var estimateShow := BuildShown(estimateHour, estimateMin);

      var spentMin := issue.totalTimeSpent / SecondsPerMinute % MinutesPerHour;
      var spentHour := estimateMin / MinutesPerHour;
      var spentShow := BuildShown(spentHour, spentMin);

      var user := if issue.assignee.Some? then Some(issue.assignee.value.name) else None;
      var row := Row(issue.iid, issue.title, estimateShow, spentShow,
                     issue.humanTimeEstimate, issue.humanTotalTimeSpent, user);
      assert estimateShow == RenderDuration(issue.timeEstimate);
      assert spentShow == RenderSpent(issue.timeEstimate, issue.totalTimeSpent);
      assert row == ProjectIssue(issue);
      rows := rows + [row];
    }
  }

  class Application {
    var debug: bool
    /** Absent until `SetFormat` is first called. */
    var format: Option<string>
    const allowedFormats: seq<string>

    constructor ()
      ensures !debug && format == None && allowedFormats == ["csv"]
    {
      debug := false;
      format := None;
      allowedFormats := ["csv"];
    }

    /** Stores the requested format whether or not it is supported, and
        reports whether it is. */
    method SetFormat(fmt: string) returns (supported: bool)
      modifies this`format
      ensures format == Some(fmt)
      ensures supported <==> fmt in allowedFormats
    {
      format := Some(fmt);
      supported := fmt in allowedFormats;
    }

    /** The export. An unsupported format is refused before the cache is
        looked at. A missing cache triggers a sync, whose return value is
        always falsy (it has no return statement), so the failure message is
        printed and nothing is exported. Otherwise every cached issue becomes
        one row, in order. */
    method Show(fmt: string, cache: Option<seq<Issue>>) returns (outcome: ShowOutcome)
      ensures fmt !in allowedFormats ==> outcome == Unsupported(fmt, allowedFormats)
      ensures fmt in allowedFormats && cache.None? ==> outcome == SyncFailed
      ensures fmt in allowedFormats && cache.Some? ==>
        && outcome.Exported?
        && |outcome.rows| == |cache.value|
        && forall k :: 0 <= k < |cache.value| ==> outcome.rows[k] == ProjectIssue(cache.value[k])
    {
      if fmt !in allowedFormats {
        return Unsupported(fmt, allowedFormats);
      }
      if cache.None? {
        // `self.sync()` returns None, so `not self.sync()` holds
        return SyncFailed;
      }
      var rows := ProjectRows(cache.value);
      outcome := Exported(rows);
    }

    /** The export as evidently intended when the cache is missing: a sync
        that succeeds writes `fetched` to the cache, and the export then goes
        on from what it wrote; only a failed sync (`None`) stops it. */
    method ShowWithResync(fmt: string, cache: Option<seq<Issue>>, fetched: Option<seq<Issue>>)
      returns (outcome: ShowOutcome)
      ensures fmt !in allowedFormats ==> outcome == Unsupported(fmt, allowedFormats)
      ensures fmt in allowedFormats && cache.None? && fetched.None? ==> outcome == SyncFailed
      ensures fmt in allowedFormats && (cache.Some? || fetched.Some?) ==>
        var issues := if cache.Some? then cache.value else fetched.value;
        && outcome.Exported?
        && |outcome.rows| == |issues|
        && forall k :: 0 <= k < |issues| ==> outcome.rows[k] == ProjectIssue(issues[k])
    {
      if fmt !in allowedFormats {
        return Unsupported(fmt, allowedFormats);
      }
      var issues;
      if cache.Some? {
        issues := cache.value;
      } else if fetched.Some? {
        issues := fetched.value;
      } else {
        return SyncFailed;
      }
      var rows := ProjectRows(issues);
      outcome := Exported(rows);
    }
  }
}
