/**
 * `annotate_comments_tickets` (scripts/survivor_analysis/utils/annotate.py):
 * adds columns to the comment and ticket tables in place — whether each
 * body was edited, how many pull requests and issues a comment's author had
 * opened strictly before the comment, each comment's rank within its ticket,
 * and whether each ticket is closed.
 *
 * Timestamps are the strings read from the TSV logs and are compared with
 * Python's string order (Strings.Less); for ISO 8601 timestamps in one
 * format that is time order.
 */
module Annotate {
  import opened Wrappers
  import opened Strings

  /** The ticket type of a pull request, as written in the logs. */
  const PullRequest := "pull_request"
  /** The ticket type of an issue, as written in the logs. */
  const Issue := "issue"

  /** One row of the comment table (the columns the annotation reads). */
  datatype Comment = Comment(ticketId: int, authorId: int, createdAt: string, updatedAt: string)

  /** One row of the ticket table; `closedAt` is `None` where the log holds no value. */
  datatype Ticket = Ticket(authorId: int, kind: string, createdAt: string, updatedAt: string,
                           closedAt: Option<string>)

  /** The comment table: its rows, and the columns the annotation adds (empty until then). */
  class CommentFrame {
    var rows: seq<Comment>
    var wasUpdated: seq<bool>
    var numPRCreated: seq<nat>
    var numIssueCreated: seq<nat>
    var commentOrder: seq<nat>

    constructor (rows: seq<Comment>)
      ensures this.rows == rows
      ensures wasUpdated == [] && numPRCreated == [] && numIssueCreated == [] && commentOrder == []
    {
      this.rows := rows;
      wasUpdated, numPRCreated, numIssueCreated, commentOrder := [], [], [], [];
    }
  }

  /** The ticket table: its rows, and the columns the annotation adds (empty until then). */
  class TicketFrame {
    var rows: seq<Ticket>
    var wasUpdated: seq<bool>
    var isClosed: seq<bool>

    constructor (rows: seq<Ticket>)
      ensures this.rows == rows
      ensures wasUpdated == [] && isClosed == []
    {
      this.rows := rows;
      wasUpdated, isClosed := [], [];
    }
  }

  /** Ticket `tk` is of type `kind`, by `author`, and was opened strictly before `t`. */
  predicate OpenedBefore(tk: Ticket, kind: string, author: int, t: string)
  {
    Less(tk.createdAt, t) && tk.kind == kind && tk.authorId == author
  }

  /** `sum((created_at < t) & (type == kind) & (author_id == author))` over the tickets. */
  function CountOpenedBefore(tickets: seq<Ticket>, kind: string, author: int, t: string): (n: nat)
    ensures n <= |tickets|
    decreases |tickets|
  {
    if |tickets| == 0 then 0
    else
      CountOpenedBefore(tickets[..|tickets| - 1], kind, author, t)
      + (if OpenedBefore(tickets[|tickets| - 1], kind, author, t) then 1 else 0)
  }

  /** The number of tickets of type `kind` by `author`, at any time. */
  function CountOpened(tickets: seq<Ticket>, kind: string, author: int): (n: nat)
    decreases |tickets|
  {
    if |tickets| == 0 then 0
    else
      CountOpened(tickets[..|tickets| - 1], kind, author)
      + (var tk := tickets[|tickets| - 1]; if tk.kind == kind && tk.authorId == author then 1 else 0)
  }

  /** The `num_PR_created` (kind "pull_request") or `num_issue_created` (kind "issue") column. */
  function HistoricalCounts(comments: seq<Comment>, tickets: seq<Ticket>, kind: string): (r: seq<nat>)
    ensures |r| == |comments|
  {
    seq(|comments|, i requires 0 <= i < |comments| =>
      CountOpenedBefore(tickets, kind, comments[i].authorId, comments[i].createdAt))
  }

  /** A comment's count never exceeds the number of tickets of that type its author opened. */
  lemma {:induction false} CountOpenedBeforeBound(tickets: seq<Ticket>, kind: string, author: int, t: string)
    ensures CountOpenedBefore(tickets, kind, author, t) <= CountOpened(tickets, kind, author)
    decreases |tickets|
  {
    if |tickets| > 0 {
      CountOpenedBeforeBound(tickets[..|tickets| - 1], kind, author, t);
    }
  }

  lemma {:induction false} CountOpenedBeforeAppend(p: seq<Ticket>, q: seq<Ticket>, kind: string, author: int, t: string)
    ensures CountOpenedBefore(p + q, kind, author, t)
      == CountOpenedBefore(p, kind, author, t) + CountOpenedBefore(q, kind, author, t)
    decreases |q|
  {
    if |q| == 0 {
      assert p + q == p;
    } else {
      assert (p + q)[..|p + q| - 1] == p + q[..|q| - 1];
      CountOpenedBeforeAppend(p, q[..|q| - 1], kind, author, t);
    }
  }

  /** A ticket opened at exactly the comment's timestamp is not counted: the comparison is strict. */
  lemma {:induction false} SameInstantNotCounted(p: seq<Ticket>, x: Ticket, q: seq<Ticket>, kind: string, author: int)
    ensures CountOpenedBefore(p + [x] + q, kind, author, x.createdAt)
      == CountOpenedBefore(p + q, kind, author, x.createdAt)
  {
    var t := x.createdAt;
    LessIrreflexive(t);
    CountOpenedBeforeAppend(p + [x], q, kind, author, t);
    CountOpenedBeforeAppend(p, [x], kind, author, t);
    CountOpenedBeforeAppend(p, q, kind, author, t);
    assert CountOpenedBefore([x], kind, author, t) == 0 by {
      assert [x][..0] == [];
    }
  }

  /** A ticket opened strictly earlier, of the right type and author, is counted. */
  lemma {:induction false} EarlierCounted(p: seq<Ticket>, x: Ticket, q: seq<Ticket>, t: string)
    requires Less(x.createdAt, t)
    ensures CountOpenedBefore(p + [x] + q, x.kind, x.authorId, t)
      == CountOpenedBefore(p + q, x.kind, x.authorId, t) + 1
  {
    CountOpenedBeforeAppend(p + [x], q, x.kind, x.authorId, t);
    CountOpenedBeforeAppend(p, [x], x.kind, x.authorId, t);
    CountOpenedBeforeAppend(p, q, x.kind, x.authorId, t);
    assert CountOpenedBefore([x], x.kind, x.authorId, t) == 1 by {
      assert [x][..0] == [];
    }
  }

  /** A later (or equal) timestamp never sees fewer earlier tickets. */
  lemma {:induction false} CountOpenedBeforeMonotone(tickets: seq<Ticket>, kind: string, author: int, t1: string, t2: string)
    requires LessEq(t1, t2)
    ensures CountOpenedBefore(tickets, kind, author, t1) <= CountOpenedBefore(tickets, kind, author, t2)
    decreases |tickets|
  {
    if |tickets| > 0 {
      CountOpenedBeforeMonotone(tickets[..|tickets| - 1], kind, author, t1, t2);
      var tk := tickets[|tickets| - 1];
      if OpenedBefore(tk, kind, author, t1) && t1 != t2 {
        LessTransitive(tk.createdAt, t1, t2);
      }
    }
  }

  /**
   * For two comments by the same author, the one posted later (or at the
   * same time) has at least as many earlier pull requests and issues.
   */
  lemma {:induction false} HistoricalCountsMonotone(comments: seq<Comment>, tickets: seq<Ticket>, kind: string, i: nat, j: nat)
    requires i < |comments| && j < |comments|
    requires comments[i].authorId == comments[j].authorId
    requires LessEq(comments[i].createdAt, comments[j].createdAt)
    ensures HistoricalCounts(comments, tickets, kind)[i] <= HistoricalCounts(comments, tickets, kind)[j]
  {
    CountOpenedBeforeMonotone(tickets, kind, comments[i].authorId, comments[i].createdAt, comments[j].createdAt);
  }

  /**
   * Row `j` comes before row `i` in `comments.sort_values(by=['created_at'])`:
   * an earlier timestamp, or the same timestamp and an earlier row.
   */
  predicate Precedes(comments: seq<Comment>, j: nat, i: nat)
    requires j < |comments| && i < |comments|
  {
    Less(comments[j].createdAt, comments[i].createdAt)
    || (comments[j].createdAt == comments[i].createdAt && j < i)
  }

  /** The rows of the comment table that belong to ticket `g`. */
  function TicketRows(comments: seq<Comment>, g: int): set<nat>
  {
    set j: nat | j < |comments| && comments[j].ticketId == g
  }

  /** The rows of the same ticket that come before row `i` in timestamp order. */
  function EarlierInTicket(comments: seq<Comment>, i: nat): set<nat>
    requires i < |comments|
  {
    set j: nat | j < |comments| && comments[j].ticketId == comments[i].ticketId && Precedes(comments, j, i)
  }

  /** `groupby('ticket_id').cumcount()` after sorting by `created_at`: the comment's rank in its ticket. */
  function CommentOrder(comments: seq<Comment>, i: nat): nat
    requires i < |comments|
  {
    |EarlierInTicket(comments, i)|
  }

  /** The `comment_order` column. */
  function CommentOrders(comments: seq<Comment>): (r: seq<nat>)
    ensures |r| == |comments|
  {
    seq(|comments|, i requires 0 <= i < |comments| => CommentOrder(comments, i))
  }

  lemma {:induction false} PrecedesIrreflexive(comments: seq<Comment>, i: nat)
    requires i < |comments|
    ensures !Precedes(comments, i, i)
  {
    LessIrreflexive(comments[i].createdAt);
  }

  lemma {:induction false} PrecedesTransitive(comments: seq<Comment>, i: nat, j: nat, k: nat)
    requires i < |comments| && j < |comments| && k < |comments|
    requires Precedes(comments, i, j) && Precedes(comments, j, k)
    ensures Precedes(comments, i, k)
  {
    var a, b, c := comments[i].createdAt, comments[j].createdAt, comments[k].createdAt;
    if Less(a, b) && Less(b, c) {
      LessTransitive(a, b, c);
    }
  }

  lemma {:induction false} PrecedesTotal(comments: seq<Comment>, i: nat, j: nat)
    requires i < |comments| && j < |comments| && i != j
    ensures Precedes(comments, i, j) || Precedes(comments, j, i)
  {
    LessTrichotomy(comments[i].createdAt, comments[j].createdAt);
  }

  /** A comment that precedes another in the same ticket gets a strictly smaller rank. */
  lemma {:induction false} CommentOrderStrict(comments: seq<Comment>, i: nat, j: nat)
    requires i < |comments| && j < |comments|
    requires comments[i].ticketId == comments[j].ticketId
    requires Precedes(comments, i, j)
    ensures CommentOrder(comments, i) < CommentOrder(comments, j)
  {
    var ei, ej := EarlierInTicket(comments, i), EarlierInTicket(comments, j);
    forall k | k in ei
      ensures k in ej
    {
      PrecedesTransitive(comments, k, i, j);
    }
    PrecedesIrreflexive(comments, i);
    assert i in ej && i !in ei;
    StrictSubsetSmaller(ei, ej);
  }

  lemma {:induction false} StrictSubsetSmaller(a: set<nat>, b: set<nat>)
    requires a < b
    ensures |a| < |b|
  {
    var d := b - a;
    assert b == a + d && a * d == {};
    assert d != {};
  }

  /** A comment posted strictly earlier than another on the same ticket gets a smaller rank. */
  lemma {:induction false} CommentOrderRespectsTime(comments: seq<Comment>, i: nat, j: nat)
    requires i < |comments| && j < |comments|
    requires comments[i].ticketId == comments[j].ticketId
    requires Less(comments[i].createdAt, comments[j].createdAt)
    ensures CommentOrder(comments, i) < CommentOrder(comments, j)
  {
    CommentOrderStrict(comments, i, j);
  }

  /** Each rank is below the number of comments on the ticket. */
  lemma {:induction false} CommentOrderBound(comments: seq<Comment>, i: nat)
    requires i < |comments|
    ensures CommentOrder(comments, i) < |TicketRows(comments, comments[i].ticketId)|
  {
    var e := EarlierInTicket(comments, i);
    var g := TicketRows(comments, comments[i].ticketId);
    PrecedesIrreflexive(comments, i);
    assert e <= g - {i};
    assert i in g;
    if e == g - {i} {
      assert |g - {i}| == |g| - 1;
    } else {
      StrictSubsetSmaller(e, g - {i});
    }
  }

  /** The ranks of one ticket's comments. */
  function RanksOf(comments: seq<Comment>, rows: set<nat>): set<nat>
    requires forall j :: j in rows ==> j < |comments|
  {
    set j | j in rows :: CommentOrder(comments, j)
  }

  /** Distinct comments of a ticket get distinct ranks, so a ticket's ranks are as many as its comments. */
  lemma {:induction false} RanksCardinality(comments: seq<Comment>, g: int, rows: set<nat>)
    requires rows <= TicketRows(comments, g)
    ensures |RanksOf(comments, rows)| == |rows|
    decreases |rows|
  {
    if rows != {} {
      var x :| x in rows;
      var rest := rows - {x};
      RanksCardinality(comments, g, rest);
      forall y | y in rest
        ensures CommentOrder(comments, y) != CommentOrder(comments, x)
      {
        PrecedesTotal(comments, x, y);
        if Precedes(comments, x, y) {
          CommentOrderStrict(comments, x, y);
        } else {
          CommentOrderStrict(comments, y, x);
        }
      }
      assert RanksOf(comments, rows) == RanksOf(comments, rest) + {CommentOrder(comments, x)};
    }
  }

  /** `{0, 1, ..., k - 1}`. */
  function Below(k: nat): (s: set<nat>)
    ensures |s| == k
    ensures forall r: int :: r in s <==> 0 <= r < k
  {
    if k == 0 then {} else
      var s := Below(k - 1);
      assert k - 1 !in s;
      s + {k - 1}
  }

  lemma {:induction false} SubsetOfSameSize(a: set<nat>, b: set<nat>)
    requires a <= b && |a| == |b|
    ensures a == b
  {
    assert b == a + (b - a);
    assert |b - a| == 0;
  }

  /** Within each ticket with `k` comments, `comment_order` takes exactly the values `0 .. k - 1`. */
  lemma {:induction false} CommentOrderIsPermutation(comments: seq<Comment>, g: int)
    ensures RanksOf(comments, TicketRows(comments, g)) == Below(|TicketRows(comments, g)|)
  {
    var rows := TicketRows(comments, g);
    var k := |rows|;
    RanksCardinality(comments, g, rows);
    forall r | r in RanksOf(comments, rows)
      ensures r in Below(k)
    {
      var j :| j in rows && CommentOrder(comments, j) == r;
      CommentOrderBound(comments, j);
    }
    SubsetOfSameSize(RanksOf(comments, rows), Below(k));
  }

  /**
   * `annotate_comments_tickets(comments, tickets)`: adds `was_updated`,
   * `num_PR_created`, `num_issue_created` and `comment_order` to the comment
   * table and `was_updated` and `is_closed` to the ticket table, in place,
   * leaving every row as it was.
   */
  method AnnotateCommentsTickets(comments: CommentFrame, tickets: TicketFrame)
    modifies comments, tickets
    ensures comments.rows == old(comments.rows) && tickets.rows == old(tickets.rows)
    ensures |comments.wasUpdated| == |comments.rows|
    ensures forall i :: 0 <= i < |comments.rows| ==>
      (comments.wasUpdated[i] <==> comments.rows[i].createdAt != comments.rows[i].updatedAt)
    ensures |tickets.wasUpdated| == |tickets.rows|
    ensures forall i :: 0 <= i < |tickets.rows| ==>
      (tickets.wasUpdated[i] <==> tickets.rows[i].createdAt != tickets.rows[i].updatedAt)
    ensures comments.numPRCreated == HistoricalCounts(comments.rows, tickets.rows, PullRequest)
    ensures comments.numIssueCreated == HistoricalCounts(comments.rows, tickets.rows, Issue)
    ensures comments.commentOrder == CommentOrders(comments.rows)
    ensures |tickets.isClosed| == |tickets.rows|
    ensures forall i :: 0 <= i < |tickets.rows| ==> (tickets.isClosed[i] <==> tickets.rows[i].closedAt.Some?)
  {
    var cs, ts := comments.rows, tickets.rows;
    comments.wasUpdated := seq(|cs|, i requires 0 <= i < |cs| => cs[i].createdAt != cs[i].updatedAt);
    tickets.wasUpdated := seq(|ts|, i requires 0 <= i < |ts| => ts[i].createdAt != ts[i].updatedAt);
    comments.numPRCreated := HistoricalCounts(cs, ts, PullRequest);
    comments.numIssueCreated := HistoricalCounts(cs, ts, Issue);
    comments.commentOrder := CommentOrders(cs);
    tickets.isClosed := seq(|ts|, i requires 0 <= i < |ts| => ts[i].closedAt.Some?);
  }
}
