/** The leaderboard: one entry per player, finished players first by finishing
    time, then the others by progress, ties in roster order. */
module Leaderboard {
  import opened Basics
  import opened Store

  datatype Entry = Entry(
    playerId: string,
    displayName: string,
    currentQuestion: int,
    totalQuestions: int,
    finishedAt: Option<int>,
    isFinished: bool)

  /** The entry a player gets. */
  function ToEntry(p: Player, totalQuestions: int): (e: Entry)
    ensures e.playerId == p.id && e.displayName == p.displayName && e.currentQuestion == p.currentQuestion
    ensures e.totalQuestions == totalQuestions && e.finishedAt == p.finishedAt
    ensures e.isFinished <==> p.finishedAt.Some?
  {
    Entry(p.id, p.displayName, p.currentQuestion, totalQuestions, p.finishedAt, p.finishedAt.Some?)
  }

  function Entries(players: seq<Player>, totalQuestions: int): (es: seq<Entry>)
    ensures |es| == |players|
    ensures forall i :: 0 <= i < |players| ==> es[i] == ToEntry(players[i], totalQuestions)
  {
    seq(|players|, i requires 0 <= i < |players| => ToEntry(players[i], totalQuestions))
  }

  /** The finishing time in milliseconds (an absent time reads as the epoch). */
  function FinishTime(e: Entry): int {
    if e.finishedAt.Some? then e.finishedAt.value else 0
  }

  /** The sort comparator: negative when `a` ranks above `b`, positive when below,
      zero when they tie. */
  function Compare(a: Entry, b: Entry): (c: int)
    // Finished players rank above the others.
    ensures a.isFinished && !b.isFinished ==> c < 0
    ensures !a.isFinished && b.isFinished ==> c > 0
    // Among finished players, the earlier finish ranks higher.
    ensures a.isFinished && b.isFinished ==>
              (c < 0 <==> FinishTime(a) < FinishTime(b)) && (c == 0 <==> FinishTime(a) == FinishTime(b))
    // Among the others, the one further on ranks higher.
    ensures !a.isFinished && !b.isFinished ==>
              (c < 0 <==> a.currentQuestion > b.currentQuestion) && (c == 0 <==> a.currentQuestion == b.currentQuestion)
  {
    if a.isFinished && b.isFinished then FinishTime(a) - FinishTime(b)
    else if a.isFinished then -1
    else if b.isFinished then 1
    else b.currentQuestion - a.currentQuestion
  }

  /** `a` may stand before `b`. */
  predicate Precedes(a: Entry, b: Entry) {
    Compare(a, b) <= 0
  }

  /** The comparator is a total preorder, so a sort by it is well defined: every
      two entries are ordered one way or the other, the order is transitive, and
      ties are symmetric. */
  lemma ComparatorIsConsistent(a: Entry, b: Entry, c: Entry)
    ensures Precedes(a, b) || Precedes(b, a)
    ensures Precedes(a, b) && Precedes(b, c) ==> Precedes(a, c)
    ensures Compare(a, b) == 0 <==> Compare(b, a) == 0
    ensures Compare(a, b) < 0 <==> Compare(b, a) > 0
  {
  }

  predicate Sorted(s: seq<Entry>) {
    forall i, j :: 0 <= i < j < |s| ==> Precedes(s[i], s[j])
  }

  /** Where `x` goes in a sorted list: after every entry that may precede it. */
  function InsertionPoint(x: Entry, t: seq<Entry>): (i: nat)
    ensures i <= |t|
    ensures forall k :: i <= k < |t| ==> Compare(t[k], x) > 0
    ensures 0 < i ==> Precedes(t[i - 1], x)
  {
    if t == [] || Precedes(t[|t| - 1], x) then |t| else InsertionPoint(x, t[..|t| - 1])
  }

  function Insert(x: Entry, t: seq<Entry>): (r: seq<Entry>)
    ensures multiset(r) == multiset(t) + multiset{x}
  {
    var i := InsertionPoint(x, t);
    assert t == t[..i] + t[i..];
    t[..i] + [x] + t[i..]
  }

  lemma InsertSorted(x: Entry, t: seq<Entry>, i: nat)
    requires Sorted(t) && i == InsertionPoint(x, t)
    ensures Sorted(t[..i] + [x] + t[i..])
  {
    var r := t[..i] + [x] + t[i..];
    forall a, b | 0 <= a < b < |r| ensures Precedes(r[a], r[b]) {
      InsertedPairOrdered(x, t, i, r, a, b);
    }
  }

  /** One pair of positions of the list after insertion is in order. */
  lemma InsertedPairOrdered(x: Entry, t: seq<Entry>, i: nat, r: seq<Entry>, a: nat, b: nat)
    requires Sorted(t) && i == InsertionPoint(x, t)
    requires r == t[..i] + [x] + t[i..]
    requires a < b < |r|
    ensures Precedes(r[a], r[b])
  {
    assert |r| == |t| + 1;
    var ra := if a < i then t[a] else if a == i then x else t[a - 1];
    var rb := if b < i then t[b] else if b == i then x else t[b - 1];
    assert r[a] == ra && r[b] == rb;
    if a < i && b == i {
      ComparatorIsConsistent(t[a], t[i - 1], x);
    } else if a == i {
      assert Compare(t[b - 1], x) > 0;
      ComparatorIsConsistent(x, t[b - 1], x);
    }
  }

  /** A stable sort by the comparator (insertion of each entry in turn). */
  function Sort(s: seq<Entry>): (r: seq<Entry>)
    ensures multiset(r) == multiset(s)
    ensures Sorted(r)
  {
    if s == [] then []
    else
      assert s == s[..|s| - 1] + [s[|s| - 1]];
      var sorted := Sort(s[..|s| - 1]);
      InsertSorted(s[|s| - 1], sorted, InsertionPoint(s[|s| - 1], sorted));
      Insert(s[|s| - 1], sorted)
  }

  /** `useLeaderboard(players, totalQuestions)`: the players' entries, ranked. */
  function Board(players: seq<Player>, totalQuestions: int): (b: seq<Entry>)
    ensures Sorted(b)
    ensures multiset(b) == multiset(Entries(players, totalQuestions))
  {
    Sort(Entries(players, totalQuestions))
  }

  /** The board lists every player once (no one is added, dropped or repeated;
      kicked players stay unless the caller removes them), each entry with the
      common question count and with `isFinished` exactly when a finishing time is set. */
  lemma BoardLists(players: seq<Player>, totalQuestions: int)
    ensures multiset(Board(players, totalQuestions)) == multiset(Entries(players, totalQuestions))
    ensures |Board(players, totalQuestions)| == |players|
    ensures forall e :: e in Board(players, totalQuestions) ==>
              e.totalQuestions == totalQuestions && (e.isFinished <==> e.finishedAt.Some?)
              && exists p :: p in players && e == ToEntry(p, totalQuestions)
  {
    var b := Board(players, totalQuestions);
    var es := Entries(players, totalQuestions);
    assert |b| == |multiset(b)| == |multiset(es)| == |es|;
    forall e | e in b
      ensures e.totalQuestions == totalQuestions && (e.isFinished <==> e.finishedAt.Some?)
      ensures exists p :: p in players && e == ToEntry(p, totalQuestions)
    {
      assert e in multiset(es);
      var i :| 0 <= i < |es| && es[i] == e;
      assert players[i] in players;
    }
  }

  /** Finished players come first, earliest finisher first; the others follow,
      furthest along first. */
  lemma BoardOrder(players: seq<Player>, totalQuestions: int)
    ensures var b := Board(players, totalQuestions);
            forall i, j :: 0 <= i < j < |b| ==>
              && (b[j].isFinished ==> b[i].isFinished)
              && (b[i].isFinished && b[j].isFinished ==> FinishTime(b[i]) <= FinishTime(b[j]))
              && (!b[i].isFinished && !b[j].isFinished ==> b[i].currentQuestion >= b[j].currentQuestion)
  {
    var b := Board(players, totalQuestions);
    assert Sorted(b);
  }

  // ---------------------------------------------------------------------------
  // Stability

  /** The entries of `s` that tie with `x`, in order. */
  function Ties(s: seq<Entry>, x: Entry): (r: seq<Entry>)
    ensures |r| <= |s|
  {
    if s == [] then []
    else Ties(s[..|s| - 1], x) + (if Compare(s[|s| - 1], x) == 0 then [s[|s| - 1]] else [])
  }

  lemma {:induction false} TiesAppend(s: seq<Entry>, t: seq<Entry>, x: Entry)
    ensures Ties(s + t, x) == Ties(s, x) + Ties(t, x)
    decreases |t|
  {
    if t == [] {
      assert s + t == s;
    } else {
      var u := t[..|t| - 1];
      assert (s + t)[..|s + t| - 1] == s + u;
      assert (s + t)[|s + t| - 1] == t[|t| - 1];
      TiesAppend(s, u, x);
    }
  }

  lemma {:induction false} NoTiesAfter(s: seq<Entry>, y: Entry, x: Entry)
    requires Compare(y, x) == 0
    requires forall k :: 0 <= k < |s| ==> Compare(s[k], y) > 0
    ensures Ties(s, x) == []
    decreases |s|
  {
    if s != [] {
      ComparatorIsConsistent(s[|s| - 1], y, x);
      NoTiesAfter(s[..|s| - 1], y, x);
    }
  }

  /** Placing `y` between `pre` and `post` adds it to the ties of `x` (when it
      ties) at the end, provided no entry after it ties with it. */
  lemma TiesAround(pre: seq<Entry>, y: Entry, post: seq<Entry>, x: Entry)
    requires Compare(y, x) == 0 ==> forall k :: 0 <= k < |post| ==> Compare(post[k], y) > 0
    ensures Ties(pre + [y] + post, x) == Ties(pre + post, x) + (if Compare(y, x) == 0 then [y] else [])
  {
    TiesAppend(pre + [y], post, x);
    TiesAppend(pre, [y], x);
    TiesAppend(pre, post, x);
    assert [y][..0] == [];
    if Compare(y, x) == 0 {
      NoTiesAfter(post, y, x);
    }
  }

  /** `Insert` splits the list at the insertion point. */
  lemma InsertShape(y: Entry, t: seq<Entry>, i: nat)
    requires i == InsertionPoint(y, t)
    ensures Insert(y, t) == t[..i] + [y] + t[i..]
    ensures t == t[..i] + t[i..]
  {
  }

  /** Everything after the insertion point ranks strictly below the inserted entry. */
  lemma AfterInsertionPoint(y: Entry, t: seq<Entry>, i: nat)
    requires i == InsertionPoint(y, t)
    ensures forall k :: 0 <= k < |t[i..]| ==> Compare(t[i..][k], y) > 0
  {
    forall k | 0 <= k < |t[i..]| ensures Compare(t[i..][k], y) > 0 {
      assert t[i..][k] == t[i + k];
    }
  }

  lemma InsertTies(y: Entry, t: seq<Entry>, x: Entry)
    ensures Ties(Insert(y, t), x) == Ties(t, x) + (if Compare(y, x) == 0 then [y] else [])
  {
    var i := InsertionPoint(y, t);
    InsertShape(y, t, i);
    AfterInsertionPoint(y, t, i);
    TiesAround(t[..i], y, t[i..], x);
  }

  /** The sort is stable: entries that tie keep their relative order. */
  lemma {:induction false} SortStable(s: seq<Entry>, x: Entry)
    ensures Ties(Sort(s), x) == Ties(s, x)
    decreases |s|
  {
    if s != [] {
      SortStable(s[..|s| - 1], x);
      InsertTies(s[|s| - 1], Sort(s[..|s| - 1]), x);
    }
  }

  /** Players who tie on the board (finished at the same instant, or unfinished
      at the same question) appear in the order they had in the input. */
  lemma BoardStable(players: seq<Player>, totalQuestions: int, x: Entry)
    ensures Ties(Board(players, totalQuestions), x) == Ties(Entries(players, totalQuestions), x)
  {
    SortStable(Entries(players, totalQuestions), x);
  }
}
