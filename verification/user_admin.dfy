/** The user-management page: paging through the user list, the Prev and
    Next buttons, and the list lines from which the selected user ids are
    read back. */
module UserAdmin {
  import opened Outcomes
  import opened Text
  import opened Numbers
  import opened Accounts

  /** The page's paging state: the current page, the page size (20) and the
      total the last count query reported. */
  datatype Pager = Pager(page: int, pageSize: nat, totalUsers: nat)

  const PageSize: nat := 20

  function InitialPager(): Pager {
    Pager(1, PageSize, 0)
  }

  /** `max(1, ceil(total / size))`, with the integer division of the source. */
  function TotalPages(total: nat, size: nat): (n: nat)
    requires size > 0
    ensures n >= 1
    ensures total > 0 ==> (n - 1) * size < total <= n * size
    ensures total == 0 ==> n == 1
  {
    var q := (total + size - 1) / size;
    assert total > 0 ==> (q - 1) * size < total <= q * size by {
      var r := (total + size - 1) % size;
      assert total + size - 1 == q * size + r;
    }
    if q > 1 then q else 1
  }

  /** The `OFFSET` of the current page: the rows of all earlier pages. */
  function Offset(p: Pager): int {
    (p.page - 1) * p.pageSize
  }

  /** On any page up to the last, the offset points at an existing row (when
      there is any), and the next page starts one page size further on. */
  lemma OffsetInRange(p: Pager)
    requires p.pageSize > 0 && 1 <= p.page <= TotalPages(p.totalUsers, p.pageSize)
    ensures 0 <= Offset(p)
    ensures p.totalUsers > 0 ==> Offset(p) < p.totalUsers
    ensures Offset(p.(page := p.page + 1)) == Offset(p) + p.pageSize
  {
    var n := TotalPages(p.totalUsers, p.pageSize);
    assert (p.page - 1) * p.pageSize <= (n - 1) * p.pageSize by {
      MulMonotone(p.page - 1, n - 1, p.pageSize);
    }
  }

  lemma MulMonotone(a: int, b: int, c: nat)
    requires 0 <= a <= b
    ensures a * c <= b * c
  {
  }

  /** `next_page`: move on only while a further page exists. */
  function NextPage(p: Pager): (r: Pager)
    requires p.pageSize > 0
    ensures r.pageSize == p.pageSize && r.totalUsers == p.totalUsers
    ensures p.page < TotalPages(p.totalUsers, p.pageSize) ==> r.page == p.page + 1
    ensures p.page >= TotalPages(p.totalUsers, p.pageSize) ==> r == p
  {
    if p.page < TotalPages(p.totalUsers, p.pageSize) then p.(page := p.page + 1) else p
  }

  /** `prev_page`: move back only from a page after the first. */
  function PrevPage(p: Pager): (r: Pager)
    ensures r.pageSize == p.pageSize && r.totalUsers == p.totalUsers
    ensures p.page > 1 ==> r.page == p.page - 1
    ensures p.page <= 1 ==> r == p
  {
    if p.page > 1 then p.(page := p.page - 1) else p
  }

  /** Whether the two buttons are enabled after a refresh. */
  datatype Buttons = Buttons(prev: bool, next: bool)

  function ButtonStates(p: Pager): (b: Buttons)
    requires p.pageSize > 0
    ensures b.prev <==> PrevPage(p) != p
    ensures b.next <==> NextPage(p) != p
  {
    Buttons(p.page > 1, p.page < TotalPages(p.totalUsers, p.pageSize))
  }

  /** The paging invariant: a positive page size and a page of at least 1. */
  predicate PagerOk(p: Pager) {
    p.pageSize > 0 && p.page >= 1
  }

  /** Every paging step keeps the invariant, and paging forward never runs
      past the last page. */
  lemma PagingKeepsInvariant(p: Pager)
    requires PagerOk(p)
    ensures PagerOk(NextPage(p)) && PagerOk(PrevPage(p))
    ensures p.page <= TotalPages(p.totalUsers, p.pageSize) ==>
              NextPage(p).page <= TotalPages(p.totalUsers, p.pageSize)
  {
  }

  // ---------------------------------------------------------------------
  // List lines

  /** The list line of one user: `"{id}: {username} ({role}) - {email}"`,
      the email being empty in every row the listing returns. */
  function FormatLine(u: User): string {
    NatToString(u.id) + ": " + u.username + " (" + u.role + ") - "
  }

  /** `int(line.split(":")[0])`; `None` for the `ValueError`. */
  function ParseLineId(line: string): (r: Option<int>)
    ensures AllSpace(SplitOn(line, ':')[0]) ==> r.None?
  {
    ParseInt(SplitOn(line, ':')[0])
  }

  /** Reading the id back from a user's line gives that user's id, whatever
      the name and role hold, colons included. */
  lemma LineIdRoundTrip(u: User)
    ensures ParseLineId(FormatLine(u)) == Some(u.id as int)
  {
    var d := NatToString(u.id);
    var rest := " " + u.username + " (" + u.role + ") - ";
    assert FormatLine(u) == d + [':'] + rest;
    NoCharInDigits(d, ':');
    SplitOnCons(d, ':', rest);
    ParseIntOfDigits(d);
  }

  /** The ids behind the selected lines, in selection order, each line
      read by `parse`; `None` when a line does not start with an integer
      (the list comprehension raises). */
  function IdsFrom(parse: string -> Option<int>, lines: seq<string>, selected: seq<nat>): (r: Option<seq<int>>)
    ensures r.Some? ==> |r.value| == |selected|
    decreases |selected|
  {
    if |selected| == 0 then Some([])
    else
      var rest := IdsFrom(parse, lines, selected[1..]);
      var id := if selected[0] < |lines| then parse(lines[selected[0]]) else None;
      if id.Some? && rest.Some? then Some([id.value] + rest.value) else None
  }

  /** `[int(lb.get(i).split(":")[0]) for i in selected]`. */
  function SelectedIds(lines: seq<string>, selected: seq<nat>): (r: Option<seq<int>>)
    ensures r.Some? ==> |r.value| == |selected|
  {
    IdsFrom(ParseLineId, lines, selected)
  }

  /** The list box's lines, one per user in listing order. */
  function Listing(users: seq<User>): (lines: seq<string>)
    ensures |lines| == |users|
    ensures forall i :: 0 <= i < |users| ==> lines[i] == FormatLine(users[i])
  {
    seq(|users|, i requires 0 <= i < |users| => FormatLine(users[i]))
  }

  /** The ids of the users at the selected positions, in selection order. */
  function IdsAt(users: seq<User>, selected: seq<nat>): (ids: seq<int>)
    requires forall k :: 0 <= k < |selected| ==> selected[k] < |users|
    ensures |ids| == |selected|
    ensures forall k :: 0 <= k < |selected| ==> ids[k] == users[selected[k]].id as int
  {
    seq(|selected|, k requires 0 <= k < |selected| => users[selected[k]].id as int)
  }

  /** Selecting lines of a listing gives back exactly the listed users' ids. */
  lemma SelectedIdsOfListing(users: seq<User>, selected: seq<nat>)
    requires forall k :: 0 <= k < |selected| ==> selected[k] < |users|
    ensures SelectedIds(Listing(users), selected) == Some(IdsAt(users, selected))
  {
    var lines := Listing(users);
    forall i | 0 <= i < |users|
      ensures ParseLineId(lines[i]) == Some(users[i].id as int)
    {
      LineIdRoundTrip(users[i]);
    }
    IdsFromRoundTrip(ParseLineId, users, lines, selected);
  }

  /** With a parser that reads each line's id back, the selected lines give
      the selected users' ids. */
  lemma {:induction false} IdsFromRoundTrip(parse: string -> Option<int>, users: seq<User>, lines: seq<string>, selected: seq<nat>)
    requires |lines| == |users|
    requires forall i :: 0 <= i < |users| ==> parse(lines[i]) == Some(users[i].id as int)
    requires forall k :: 0 <= k < |selected| ==> selected[k] < |users|
    ensures IdsFrom(parse, lines, selected) == Some(IdsAt(users, selected))
    decreases |selected|
  {
    if |selected| > 0 {
      IdsFromRoundTrip(parse, users, lines, selected[1..]);
      assert IdsAt(users, selected) == [users[selected[0]].id as int] + IdsAt(users, selected[1..]);
    }
  }
}
