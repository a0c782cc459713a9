/**
 The paged content browser behind `!whyquit`: a category selector plus
 previous/next buttons over the points of the selected category. Its state is
 the selected category key and the page index. The source defines the view's
 interaction handler but never attaches it to the menu or the buttons, so these
 transitions are what the handler would do if it were wired up.
 */
module Pager {
  import opened Basics

  datatype Point = Point(title: string, text: string)

  /** A content category; `points` is `None` when the configuration gives the category no point list. */
  datatype Category = Category(key: string, title: string, points: Option<seq<Point>>)

  /** The content configuration, categories in configuration order. */
  type Content = seq<Category>

  /** The point shown when a category or its point list is missing. */
  const Placeholder: Point := Point("N/A", "N/A")

  datatype State = State(key: string, page: nat)

  /** An interaction with the view: the category menu, the two buttons, or anything else. */
  datatype Action = SelectCategory(choice: string) | PrevPage | NextPage | Other

  /** What the button row shows: nothing, or both buttons with their disabled flags. */
  datatype Buttons = Hidden | Shown(prevDisabled: bool, nextDisabled: bool)

  function Lookup(content: Content, key: string): (r: Option<Category>)
    ensures r.Some? ==> r.value in content && r.value.key == key
    ensures r.None? ==> forall i :: 0 <= i < |content| ==> content[i].key != key
  {
    if |content| == 0 then None
    else if content[0].key == key then Some(content[0])
    else Lookup(content[1..], key)
  }

  /** The points of the category `key`, defaulting to the single placeholder point. */
  function PointsOf(content: Content, key: string): seq<Point> {
    match Lookup(content, key)
    case None => [Placeholder]
    case Some(c) => if c.points.Some? then c.points.value else [Placeholder]
  }

  /** The page index names an existing point whenever the category has any. */
  predicate Valid(content: Content, s: State) {
    |PointsOf(content, s.key)| > 0 ==> s.page < |PointsOf(content, s.key)|
  }

  /** Opening the view selects the first category at page 0; with no categories it cannot open. */
  function Open(content: Content): (r: Option<State>)
    ensures r.None? <==> |content| == 0
    ensures r.Some? ==> r.value.key == content[0].key && r.value.page == 0 && Valid(content, r.value)
  {
    if |content| == 0 then None else Some(State(content[0].key, 0))
  }

  /** The state after one interaction. */
  function Handle(content: Content, s: State, a: Action): (s': State)
    ensures !a.SelectCategory? ==> s'.key == s.key
    ensures a.SelectCategory? ==> s' == State(a.choice, 0)
    ensures !a.SelectCategory? ==> s.page - 1 <= s'.page <= s.page + 1
    ensures a.PrevPage? ==> (s'.page == s.page - 1 <==> s.page > 0)
    ensures a.PrevPage? ==> s'.page <= s.page
    ensures a.NextPage? ==> (s'.page == s.page + 1 <==> s.page < |PointsOf(content, s.key)| - 1)
    ensures a.NextPage? ==> s'.page >= s.page
    ensures a.Other? ==> s' == s
  {
    match a
    case SelectCategory(choice) => State(choice, 0)
    case PrevPage => if s.page > 0 then s.(page := s.page - 1) else s
    case NextPage => if s.page < |PointsOf(content, s.key)| - 1 then s.(page := s.page + 1) else s
    case Other => s
  }

  function ButtonsOf(content: Content, s: State): Buttons {
    var n := |PointsOf(content, s.key)|;
    if n > 1 then Shown(s.page == 0, s.page >= n - 1) else Hidden
  }

  /** The point the view displays; `None` where the source indexes past the end of the list. */
  function CurrentPoint(content: Content, s: State): (r: Option<Point>)
    ensures r.Some? <==> s.page < |PointsOf(content, s.key)|
    ensures r.Some? ==> r.value in PointsOf(content, s.key)
  {
    var points := PointsOf(content, s.key);
    if s.page < |points| then Some(points[s.page]) else None
  }

  /** Every interaction keeps the page within the category's points. */
  lemma HandleKeepsValid(content: Content, s: State, a: Action)
    requires Valid(content, s)
    ensures Valid(content, Handle(content, s, a))
  {
  }

  /** A valid state over a non-empty category always has a point to show. */
  lemma ValidShowsPoint(content: Content, s: State)
    requires Valid(content, s) && |PointsOf(content, s.key)| > 0
    ensures CurrentPoint(content, s) == Some(PointsOf(content, s.key)[s.page])
  {
  }

  /**
   The buttons appear exactly when the category has more than one point, and
   each is disabled exactly when pressing it would change nothing.
   */
  lemma ButtonsMatchMoves(content: Content, s: State)
    ensures ButtonsOf(content, s).Shown? <==> |PointsOf(content, s.key)| > 1
    ensures ButtonsOf(content, s).Shown? ==>
              && (ButtonsOf(content, s).prevDisabled <==> Handle(content, s, PrevPage) == s)
              && (ButtonsOf(content, s).nextDisabled <==> Handle(content, s, NextPage) == s)
  {
  }

  /** Going forward and back, or back and forward, returns to the same page. */
  lemma NextPrevInverse(content: Content, s: State)
    ensures s.page < |PointsOf(content, s.key)| - 1 ==>
              Handle(content, Handle(content, s, NextPage), PrevPage) == s
    ensures 0 < s.page < |PointsOf(content, s.key)| ==>
              Handle(content, Handle(content, s, PrevPage), NextPage) == s
  {
  }

  /** The state after pressing the same control `k` times. */
  function Repeat(content: Content, s: State, a: Action, k: nat): State
    decreases k
  {
    if k == 0 then s else Handle(content, Repeat(content, s, a, k - 1), a)
  }

  /** Pressing "next" `k` times from a valid state moves `k` pages forward, stopping at the last page. */
  lemma {:induction false} NextRepeated(content: Content, s: State, k: nat)
    requires Valid(content, s) && |PointsOf(content, s.key)| > 0
    ensures Repeat(content, s, NextPage, k).key == s.key
    ensures Repeat(content, s, NextPage, k).page == Min(s.page + k, |PointsOf(content, s.key)| - 1)
    decreases k
  {
    if k > 0 {
      NextRepeated(content, s, k - 1);
    }
  }

  /** Pressing "previous" `k` times moves `k` pages back, stopping at the first page. */
  lemma {:induction false} PrevRepeated(content: Content, s: State, k: nat)
    ensures Repeat(content, s, PrevPage, k).key == s.key
    ensures Repeat(content, s, PrevPage, k).page == if s.page < k then 0 else s.page - k
    decreases k
  {
    if k > 0 {
      PrevRepeated(content, s, k - 1);
    }
  }
}
