/** FlashcardsService over the flashcard table. The table is the sequence of
    rows in the store's order (the order `findMany` returns without an
    `orderBy`); ids are unique. Every card carries its own SM-2 columns. */
module Flashcards {
  import opened Common
  import opened Sequences
  import SM2

  datatype Card = Card(
    id: Id,
    topicId: Id,
    question: string,
    interval: int,
    repetition: int,
    ef: real,
    nextReview: int)   // milliseconds since the epoch

  /** The primary key: no two rows share an id. */
  predicate UniqueIds(cards: seq<Card>) {
    forall i, j :: 0 <= i < j < |cards| ==> cards[i].id != cards[j].id
  }

  function HasId(id: Id): Card -> bool { (c: Card) => c.id == id }

  function HasTopic(topicId: Id): Card -> bool { (c: Card) => c.topicId == topicId }

  /** The columns calculateSM2 reads from the row it is handed. */
  function ProgressOf(c: Card): SM2.Progress {
    SM2.Progress(c.interval, c.repetition, c.ef)
  }

  /** `prisma.flashcard.update({ data: schedule })`: the four scheduling
      columns take the scheduler's values, every other column is kept. */
  function WithSchedule(c: Card, s: SM2.Schedule): Card {
    c.(interval := s.interval, repetition := s.repetition, ef := s.ef, nextReview := s.nextReview)
  }

  // ---------------------------------------------------------------------
  // getFlashcardsByTopic

  /** `findMany({ where: { topic_id }, skip, take })`. */
  function GetFlashcardsByTopic(cards: seq<Card>, topicId: Id, skip: nat, take: nat): (r: seq<Card>)
    ensures forall c :: c in r ==> c in cards && c.topicId == topicId
    ensures |r| == Min(take, Max(0, |Filter(cards, HasTopic(topicId))| - skip))
  {
    var matching := Filter(cards, HasTopic(topicId));
    PageWithin(matching, skip, take);
    Page(matching, skip, take)
  }

  /** Consecutive pages of a topic join up into the page that spans them,
      so paging through a topic neither skips nor repeats a card. */
  lemma TopicPagesJoin(cards: seq<Card>, topicId: Id, skip: nat, a: nat, b: nat)
    ensures GetFlashcardsByTopic(cards, topicId, skip, a) + GetFlashcardsByTopic(cards, topicId, skip + a, b)
         == GetFlashcardsByTopic(cards, topicId, skip, a + b)
  {
    PageSplit(Filter(cards, HasTopic(topicId)), skip, a, b);
  }

  /** A first page as large as the table holds every card of the topic. */
  lemma WholeTopicOnOnePage(cards: seq<Card>, topicId: Id, c: Card)
    requires c in cards && c.topicId == topicId
    ensures c in GetFlashcardsByTopic(cards, topicId, 0, |cards|)
  {
    var matching := Filter(cards, HasTopic(topicId));
    assert c in matching;
    var k :| 0 <= k < |matching| && matching[k] == c;
    assert GetFlashcardsByTopic(cards, topicId, 0, |cards|)[k] == c;
  }

  // ---------------------------------------------------------------------
  // getFlashcardsToRepeat

  /** The `where` of getFlashcardsToRepeat: due no later than `now`
      (inclusive) and, when a topic is given, of that topic. */
  predicate IsDue(c: Card, topicId: Option<Id>, now: int) {
    c.nextReview <= now && (topicId.Some? ==> c.topicId == topicId.value)
  }

  function DueFilter(topicId: Option<Id>, now: int): Card -> bool {
    (c: Card) => IsDue(c, topicId, now)
  }

  predicate SortedByNextReview(s: seq<Card>) {
    forall i, j :: 0 <= i < j < |s| ==> s[i].nextReview <= s[j].nextReview
  }

  /** Putting a card in front of a sorted list that is due no earlier
      keeps it sorted. */
  lemma SortedCons(h: Card, t: seq<Card>)
    requires SortedByNextReview(t)
    requires forall k :: 0 <= k < |t| ==> h.nextReview <= t[k].nextReview
    ensures SortedByNextReview([h] + t)
  {
    var r := [h] + t;
    forall i, j | 0 <= i < j < |r| ensures r[i].nextReview <= r[j].nextReview {
      assert r[j] == t[j - 1];
      if i > 0 {
        assert r[i] == t[i - 1];
      }
    }
  }

  /** The tail of a sorted list is sorted. */
  lemma SortedTail(s: seq<Card>)
    requires |s| > 0 && SortedByNextReview(s)
    ensures SortedByNextReview(s[1..])
  {
    var tail := s[1..];
    forall i, j | 0 <= i < j < |tail| ensures tail[i].nextReview <= tail[j].nextReview {
      assert tail[i] == s[i + 1] && tail[j] == s[j + 1];
    }
  }

  /** Whatever is made of the tail of a sorted list and a card due later
      than its head is due no earlier than the head. */
  lemma HeadFirst(c: Card, s: seq<Card>, rest: seq<Card>)
    requires |s| > 0 && SortedByNextReview(s) && s[0].nextReview < c.nextReview
    requires multiset(rest) == multiset(s[1..]) + multiset{c}
    ensures forall k :: 0 <= k < |rest| ==> s[0].nextReview <= rest[k].nextReview
  {
    var tail := s[1..];
    forall k | 0 <= k < |rest| ensures s[0].nextReview <= rest[k].nextReview {
      var x := rest[k];
      assert x in multiset(rest);
      if x != c {
        assert x in multiset(tail);
        var m :| 0 <= m < |tail| && tail[m] == x;
        assert s[m + 1] == x;
      }
    }
  }

  /** Inserts `c` before the first card due later than it. */
  function InsertByNextReview(c: Card, s: seq<Card>): (r: seq<Card>)
    requires SortedByNextReview(s)
    ensures SortedByNextReview(r)
    ensures multiset(r) == multiset(s) + multiset{c}
  {
    if |s| == 0 then [c]
    else if c.nextReview <= s[0].nextReview then
      SortedCons(c, s);
      [c] + s
    else
      SortedTail(s);
      var rest := InsertByNextReview(c, s[1..]);
      HeadFirst(c, s, rest);
      SortedCons(s[0], rest);
      assert s == [s[0]] + s[1..];
      [s[0]] + rest
  }

  /** `orderBy: { nextReview: 'asc' }`, as a stable sort: cards due at the
      same instant keep their table order. */
  function SortByNextReview(s: seq<Card>): (r: seq<Card>)
    ensures SortedByNextReview(r)
    ensures multiset(r) == multiset(s)
  {
    if |s| == 0 then []
    else
      assert s == [s[0]] + s[1..];
      InsertByNextReview(s[0], SortByNextReview(s[1..]))
  }

  /** Every due card, most overdue first. */
  function DueInOrder(cards: seq<Card>, topicId: Option<Id>, now: int): (r: seq<Card>)
    ensures SortedByNextReview(r)
    ensures multiset(r) == multiset(Filter(cards, DueFilter(topicId, now)))
    ensures |r| == |Filter(cards, DueFilter(topicId, now))|
    ensures forall c :: c in r ==> c in cards && IsDue(c, topicId, now)
  {
    var due := Filter(cards, DueFilter(topicId, now));
    var sorted := SortByNextReview(due);
    assert |sorted| == |due| by {
      assert |multiset(sorted)| == |multiset(due)|;
    }
    forall c | c in sorted ensures c in cards && IsDue(c, topicId, now) {
      assert c in multiset(due);
      assert c in due;
    }
    sorted
  }

  /** `findMany({ where: { topic_id, nextReview: { lte: now } },
      orderBy: { nextReview: 'asc' }, skip, take })`; an absent topic means
      no topic condition. */
  function GetFlashcardsToRepeat(cards: seq<Card>, topicId: Option<Id>, now: int, skip: nat, take: nat): (r: seq<Card>)
    ensures forall c :: c in r ==> c in cards && IsDue(c, topicId, now)
    ensures SortedByNextReview(r)
    ensures |r| == Min(take, Max(0, |Filter(cards, DueFilter(topicId, now))| - skip))
    ensures UniqueIds(cards) ==> NoDuplicates(r)
    // the page is the window (skip, take) of the due cards in some ascending order
    ensures exists s :: && SortedByNextReview(s)
                        && multiset(s) == multiset(Filter(cards, DueFilter(topicId, now)))
                        && r == Page(s, skip, take)
  {
    var sorted := DueInOrder(cards, topicId, now);
    PageOfDue(sorted, cards, topicId, now, skip, take);
    Page(sorted, skip, take)
  }

  /** A page of a sorted list is sorted. */
  lemma PageSorted(s: seq<Card>, skip: nat, take: nat)
    requires SortedByNextReview(s)
    ensures SortedByNextReview(Page(s, skip, take))
  {
    var r := Page(s, skip, take);
    forall i, j | 0 <= i < j < |r| ensures r[i].nextReview <= r[j].nextReview {
      assert r[i] == s[skip + i] && r[j] == s[skip + j];
    }
  }

  /** A page of cards in order, each due, is itself in order and holds
      only due cards. */
  lemma PageOfDue(sorted: seq<Card>, cards: seq<Card>, topicId: Option<Id>, now: int, skip: nat, take: nat)
    requires SortedByNextReview(sorted)
    requires multiset(sorted) == multiset(Filter(cards, DueFilter(topicId, now)))
    requires forall c :: c in sorted ==> c in cards && IsDue(c, topicId, now)
    ensures forall c :: c in Page(sorted, skip, take) ==> c in cards && IsDue(c, topicId, now)
    ensures SortedByNextReview(Page(sorted, skip, take))
    ensures UniqueIds(cards) ==> NoDuplicates(Page(sorted, skip, take))
  {
    PageWithin(sorted, skip, take);
    PageSorted(sorted, skip, take);
    if UniqueIds(cards) {
      assert NoDuplicates(cards);
      FilterNoDuplicates(cards, DueFilter(topicId, now));
      PermutationKeepsNoDuplicates(Filter(cards, DueFilter(topicId, now)), sorted);
      PageNoDuplicates(sorted, skip, take);
    }
  }

  /** Consecutive pages of due cards join up into the page that spans them,
      so paging through the due cards neither skips nor repeats one. */
  lemma RepeatPagesJoin(cards: seq<Card>, topicId: Option<Id>, now: int, skip: nat, a: nat, b: nat)
    ensures GetFlashcardsToRepeat(cards, topicId, now, skip, a) + GetFlashcardsToRepeat(cards, topicId, now, skip + a, b)
         == GetFlashcardsToRepeat(cards, topicId, now, skip, a + b)
  {
    PageSplit(DueInOrder(cards, topicId, now), skip, a, b);
  }

  /** Every card of a page is due no later than any card of the page that
      follows it. */
  lemma RepeatPagesInOrder(cards: seq<Card>, topicId: Option<Id>, now: int, skip: nat, a: nat, b: nat, c: Card, d: Card)
    requires c in GetFlashcardsToRepeat(cards, topicId, now, skip, a)
    requires d in GetFlashcardsToRepeat(cards, topicId, now, skip + a, b)
    ensures c.nextReview <= d.nextReview
  {
    var sorted := DueInOrder(cards, topicId, now);
    assert GetFlashcardsToRepeat(cards, topicId, now, skip, a) == Page(sorted, skip, a);
    assert GetFlashcardsToRepeat(cards, topicId, now, skip + a, b) == Page(sorted, skip + a, b);
    SortedPagesInOrder(sorted, skip, a, b, c, d);
  }

  /** In a list sorted by nextReview, a page comes before the page after it. */
  lemma SortedPagesInOrder(s: seq<Card>, skip: nat, a: nat, b: nat, c: Card, d: Card)
    requires SortedByNextReview(s)
    requires c in Page(s, skip, a) && d in Page(s, skip + a, b)
    ensures c.nextReview <= d.nextReview
  {
    var left, right := Page(s, skip, a), Page(s, skip + a, b);
    var i :| 0 <= i < |left| && left[i] == c;
    var k :| 0 <= k < |right| && right[k] == d;
    assert s[skip + i] == c && s[skip + a + k] == d;
  }

  /** The first page holds the most overdue cards: every due card left off
      it is due no earlier than any card on it. */
  lemma FirstPageMostOverdue(cards: seq<Card>, topicId: Option<Id>, now: int, take: nat, c: Card, d: Card)
    requires c in GetFlashcardsToRepeat(cards, topicId, now, 0, take)
    requires d in cards && IsDue(d, topicId, now)
    requires d !in GetFlashcardsToRepeat(cards, topicId, now, 0, take)
    ensures c.nextReview <= d.nextReview
  {
    var due := Filter(cards, DueFilter(topicId, now));
    var sorted := DueInOrder(cards, topicId, now);
    var r := GetFlashcardsToRepeat(cards, topicId, now, 0, take);
    assert r == Page(sorted, 0, take);
    assert d in due;
    assert d in multiset(sorted);
    var k :| 0 <= k < |sorted| && sorted[k] == d;
    var i :| 0 <= i < |r| && r[i] == c;
    assert r[i] == sorted[i];
    assert k >= |r|;
  }

  /** Nothing due is lost: a first page at least as large as the due set
      holds every due card. */
  lemma AllDueOnLargeFirstPage(cards: seq<Card>, topicId: Option<Id>, now: int, take: nat, d: Card)
    requires take >= |Filter(cards, DueFilter(topicId, now))|
    requires d in cards && IsDue(d, topicId, now)
    ensures d in GetFlashcardsToRepeat(cards, topicId, now, 0, take)
  {
    var due := Filter(cards, DueFilter(topicId, now));
    var sorted := DueInOrder(cards, topicId, now);
    var r := GetFlashcardsToRepeat(cards, topicId, now, 0, take);
    assert r == Page(sorted, 0, take);
    assert d in due;
    assert d in multiset(sorted);
    var k :| 0 <= k < |sorted| && sorted[k] == d;
    assert r[k] == d;
  }

  // ---------------------------------------------------------------------
  // getEntryTestFlashcards

  /** The `where` of getEntryTestFlashcards: with a (non-empty) subject id,
      the card's topic must belong to that subject; otherwise every card. */
  predicate InSubject(c: Card, topicSubjects: map<Id, Id>, subjectId: Option<Id>) {
    || subjectId.None?
    || subjectId.value == ""
    || (c.topicId in topicSubjects && topicSubjects[c.topicId] == subjectId.value)
  }

  function SubjectFilter(topicSubjects: map<Id, Id>, subjectId: Option<Id>): Card -> bool {
    (c: Card) => InSubject(c, topicSubjects, subjectId)
  }

  /** Fetches the matching cards, shuffles them (any order may come out) and
      returns `slice(skip, skip + take)` of the shuffled list. The topic
      table is given as the map from topic id to subject id. */
  method GetEntryTestFlashcards(cards: seq<Card>, topicSubjects: map<Id, Id>, subjectId: Option<Id>, skip: nat, take: nat)
    returns (r: seq<Card>)
    requires UniqueIds(cards)
    ensures forall c :: c in r ==> c in cards && InSubject(c, topicSubjects, subjectId)
    ensures NoDuplicates(r)
    ensures |r| == Min(take, Max(0, |Filter(cards, SubjectFilter(topicSubjects, subjectId))| - skip))
  {
    var matching := Filter(cards, SubjectFilter(topicSubjects, subjectId));
    assert multiset(matching) == multiset(matching);
    var shuffled: seq<Card> :| multiset(shuffled) == multiset(matching);
    assert |shuffled| == |matching| by {
      assert |multiset(shuffled)| == |multiset(matching)|;
    }
    assert NoDuplicates(cards);
    FilterNoDuplicates(cards, SubjectFilter(topicSubjects, subjectId));
    PermutationKeepsNoDuplicates(matching, shuffled);
    r := Page(shuffled, skip, take);
    PageNoDuplicates(shuffled, skip, take);
    forall c | c in r ensures c in cards && InSubject(c, topicSubjects, subjectId) {
      assert c in multiset(shuffled);
      assert c in matching;
    }
  }

  // ---------------------------------------------------------------------
  // submitAnswer

  /** The flashcard table as the service mutates it. */
  class FlashcardTable {
    var cards: seq<Card>

    ghost predicate Valid()
      reads this
    {
      UniqueIds(cards)
    }

    constructor (initial: seq<Card>)
      requires UniqueIds(initial)
      ensures Valid() && cards == initial
    {
      cards := initial;
    }

    /** Looks the card up by id; an unknown id is NotFound and nothing is
        computed or written. Otherwise the SM-2 result for that card is
        written onto its row, and the updated row is returned. */
    method SubmitAnswer(flashcardId: Id, isCorrect: bool, now: int) returns (r: Result<Card>)
      requires Valid()
      modifies this
      ensures Valid()
      ensures IndexWhere(old(cards), HasId(flashcardId)).None? ==>
                r == Err(NotFound(FlashcardNotFound)) && cards == old(cards)
      ensures IndexWhere(old(cards), HasId(flashcardId)).Some? ==>
                var i := IndexWhere(old(cards), HasId(flashcardId)).value;
                var card := old(cards)[i];
                && cards == old(cards)[i := WithSchedule(card, SM2.CalculateSM2(ProgressOf(card), isCorrect, now))]
                && r == Ok(cards[i])
      // every other card is untouched, and the row keeps its id, topic and question
      ensures |cards| == |old(cards)|
      ensures forall j :: 0 <= j < |cards| && old(cards)[j].id != flashcardId ==> cards[j] == old(cards)[j]
      ensures forall j :: 0 <= j < |cards| ==>
                cards[j].id == old(cards)[j].id && cards[j].topicId == old(cards)[j].topicId
                && cards[j].question == old(cards)[j].question
    {
      var found := IndexWhere(cards, HasId(flashcardId));
      if found.None? {
        return Err(NotFound(FlashcardNotFound));
      }
      var i := found.value;
      var schedule := SM2.CalculateSM2(ProgressOf(cards[i]), isCorrect, now);
      cards := cards[i := WithSchedule(cards[i], schedule)];
      r := Ok(cards[i]);
    }
  }
}
