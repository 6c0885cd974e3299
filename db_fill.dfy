/** DbFillService: seeding the topic, flashcard and answer tables from the
    history dump, summarising answers without text, and deleting rows left
    empty. The dump (`history_raw.json`) and the tasks `filterHistoryData`
    derives from it are parameters; the store's generated row ids come from
    a counter. */
module DbFill {
  import opened Common
  import opened Sequences
  import opened Text
  import FilterFunc

  type RowId = nat

  datatype Subject = Subject(id: RowId, name: string)

  datatype Topic = Topic(id: RowId, subjectId: RowId, name: string)

  datatype Flashcard = Flashcard(id: RowId, topicId: Option<RowId>, question: string)

  datatype Answer = Answer(id: RowId, flashcardId: Option<RowId>, text: Option<string>, isCorrect: bool)

  /** An answer as a filtered task carries it, before it is stored. */
  datatype NewAnswer = NewAnswer(text: Option<string>, isCorrect: bool)

  /** A task of the dump after `filterHistoryData`. */
  datatype FilteredTask = FilteredTask(topic: string, question: string, answers: seq<NewAnswer>)

  /** `{ subject_id, name }`, one row for `topic.createMany`. */
  datatype InfoObj = InfoObj(subjectId: RowId, name: string)

  /** What answersInfo reports. */
  datatype AnswersInfo = AnswersInfo(answerNum: nat, answerNoText: nat, topicsWithNoText: seq<string>)

  /** What the two deletions report. */
  datatype DeleteReply = DeleteReply(message: string, deleted: nat)

  const HistorySubjectName := "History"
  const ParsingErrorMessage := "Error during topics parsing"
  const UnknownTopic := "UNKNOWN"
  const EmptyTopicsDeleted := "Empty topics deleted"
  const EmptyFlashcardsDeleted := "Empty flashcards deleted"

  /** The entries the `forEach` of insertTopic collects: one per name, in
      order, under the given subject. */
  function InfoFor(subjectId: RowId, names: seq<string>): (r: seq<InfoObj>)
    ensures |r| == |names|
    ensures forall k :: 0 <= k < |names| ==> r[k].subjectId == subjectId && r[k].name == names[k]
  {
    seq(|names|, k requires 0 <= k < |names| => InfoObj(subjectId, names[k]))
  }

  /** The rows `topic.createMany` adds: one per entry, in order, numbered
      from `start`. */
  function CreatedTopics(start: nat, info: seq<InfoObj>): (r: seq<Topic>)
    ensures |r| == |info|
    ensures forall k :: 0 <= k < |info| ==>
              r[k].id == start + k && r[k].subjectId == info[k].subjectId && r[k].name == info[k].name
  {
    seq(|info|, k requires 0 <= k < |info| => Topic(start + k, info[k].subjectId, info[k].name))
  }

  /** The topics insertTopic adds carry the extracted names, in order, all
      under the one subject, with distinct ids none of which was handed out
      before. */
  lemma InsertedTopics(start: nat, subjectId: RowId, names: seq<string>)
    ensures Map(CreatedTopics(start, InfoFor(subjectId, names)), TopicName) == names
    ensures forall t :: t in CreatedTopics(start, InfoFor(subjectId, names)) ==>
              t.subjectId == subjectId && start <= t.id < start + |names|
    ensures NoDuplicates(Map(CreatedTopics(start, InfoFor(subjectId, names)), TopicId))
  {
    var created := CreatedTopics(start, InfoFor(subjectId, names));
    var ids := Map(created, TopicId);
    forall i, j | 0 <= i < j < |ids| ensures ids[i] != ids[j] {
      assert ids[i] == start + i && ids[j] == start + j;
    }
  }

  function TopicName(t: Topic): string { t.name }

  function TopicId(t: Topic): RowId { t.id }

  function IsHistory(): Subject -> bool { (s: Subject) => s.name == HistorySubjectName }

  function TopicNamed(name: string): Topic -> bool { (t: Topic) => t.name == name }

  function TopicWithId(id: RowId): Topic -> bool { (t: Topic) => t.id == id }

  function FlashcardWithId(id: RowId): Flashcard -> bool { (f: Flashcard) => f.id == id }

  // ---------------------------------------------------------------------
  // insertTask, as a function of its inputs

  /** The part of the tables insertTask writes, and its list of tasks
      without a topic. */
  datatype Seeding = Seeding(flashcards: seq<Flashcard>, answers: seq<Answer>, nextId: nat, tempArr: seq<FilteredTask>)

  /** A task whose topic name some topic row carries. */
  function Matched(topics: seq<Topic>): FilteredTask -> bool {
    (t: FilteredTask) => IndexWhere(topics, TopicNamed(t.topic)).Some?
  }

  /** The rows of a nested `answers: { create }`, numbered from `start`. */
  function AnswerRows(newAnswers: seq<NewAnswer>, flashcardId: RowId, start: nat): (r: seq<Answer>)
    ensures |r| == |newAnswers|
    ensures forall k :: 0 <= k < |r| ==>
              r[k] == Answer(start + k, Some(flashcardId), newAnswers[k].text, newAnswers[k].isCorrect)
  {
    seq(|newAnswers|, k requires 0 <= k < |newAnswers| =>
      Answer(start + k, Some(flashcardId), newAnswers[k].text, newAnswers[k].isCorrect))
  }

  /** One task: a flashcard (with its answers) under the first topic of that
      name, or, without such a topic, onto `tempArr`. */
  function SeedOne(acc: Seeding, topics: seq<Topic>, task: FilteredTask): Seeding {
    match IndexWhere(topics, TopicNamed(task.topic))
    case None => acc.(tempArr := acc.tempArr + [task])
    case Some(i) =>
      var card := Flashcard(acc.nextId, Some(topics[i].id), task.question);
      Seeding(acc.flashcards + [card],
              acc.answers + AnswerRows(task.answers, card.id, acc.nextId + 1),
              acc.nextId + 1 + |task.answers|,
              acc.tempArr)
  }

  /** The tasks one after the other. */
  function SeedAll(acc: Seeding, topics: seq<Topic>, info: seq<FilteredTask>): Seeding {
    if |info| == 0 then acc
    else SeedOne(SeedAll(acc, topics, info[..|info| - 1]), topics, info[|info| - 1])
  }

  /** One task moves to exactly one side and only appends. */
  lemma SeedOneStep(acc: Seeding, topics: seq<Topic>, task: FilteredTask)
    ensures Matched(topics)(task) ==>
              && SeedOne(acc, topics, task).tempArr == acc.tempArr
              && SeedOne(acc, topics, task).flashcards
                 == acc.flashcards + [Flashcard(acc.nextId, Some(topics[IndexWhere(topics, TopicNamed(task.topic)).value].id), task.question)]
    ensures !Matched(topics)(task) ==>
              && SeedOne(acc, topics, task).tempArr == acc.tempArr + [task]
              && SeedOne(acc, topics, task).flashcards == acc.flashcards
    ensures acc.answers <= SeedOne(acc, topics, task).answers
    ensures acc.nextId <= SeedOne(acc, topics, task).nextId
  {
  }

  /** The tasks insertTask leaves in `tempArr` are exactly, and in order,
      those whose topic name no topic carries. */
  lemma {:induction false} SeedTempArr(acc: Seeding, topics: seq<Topic>, info: seq<FilteredTask>)
    ensures SeedAll(acc, topics, info).tempArr == acc.tempArr + Filter(info, Not(Matched(topics)))
  {
    if |info| > 0 {
      var init, task := info[..|info| - 1], info[|info| - 1];
      var prev := SeedAll(acc, topics, init);
      assert SeedAll(acc, topics, info) == SeedOne(prev, topics, task);
      SeedTempArr(acc, topics, init);
      SeedOneStep(prev, topics, task);
      FilterLast(info, Not(Matched(topics)));
    }
  }

  /** Every other task becomes one new flashcard, so the tasks split between
      the two outcomes, none lost and none counted twice. */
  lemma {:induction false} SeedCount(acc: Seeding, topics: seq<Topic>, info: seq<FilteredTask>)
    ensures |SeedAll(acc, topics, info).flashcards| == |acc.flashcards| + |Filter(info, Matched(topics))|
    ensures |Filter(info, Matched(topics))| + |Filter(info, Not(Matched(topics)))| == |info|
  {
    FilterPartition(info, Matched(topics));
    if |info| > 0 {
      var init, task := info[..|info| - 1], info[|info| - 1];
      var prev := SeedAll(acc, topics, init);
      assert SeedAll(acc, topics, info) == SeedOne(prev, topics, task);
      SeedCount(acc, topics, init);
      SeedOneStep(prev, topics, task);
      FilterLast(info, Matched(topics));
    }
  }

  /** insertTask only adds: existing flashcards and answers stay in front
      and the id counter only grows. */
  lemma {:induction false} SeedGrows(acc: Seeding, topics: seq<Topic>, info: seq<FilteredTask>)
    ensures acc.flashcards <= SeedAll(acc, topics, info).flashcards
    ensures acc.answers <= SeedAll(acc, topics, info).answers
    ensures acc.nextId <= SeedAll(acc, topics, info).nextId
  {
    if |info| > 0 {
      var init := info[..|info| - 1];
      SeedGrows(acc, topics, init);
      SeedOneStep(SeedAll(acc, topics, init), topics, info[|info| - 1]);
    }
  }

  /** The k-th new flashcard is made from the k-th task that has a topic:
      its question, under the first topic carrying the task's topic name. */
  lemma {:induction false} SeedFlashcards(acc: Seeding, topics: seq<Topic>, info: seq<FilteredTask>, k: nat)
    requires k < |Filter(info, Matched(topics))|
    ensures |acc.flashcards| + k < |SeedAll(acc, topics, info).flashcards|
    ensures IndexWhere(topics, TopicNamed(Filter(info, Matched(topics))[k].topic)).Some?
    ensures SeedAll(acc, topics, info).flashcards[|acc.flashcards| + k].question
         == Filter(info, Matched(topics))[k].question
    ensures SeedAll(acc, topics, info).flashcards[|acc.flashcards| + k].topicId
         == Some(topics[IndexWhere(topics, TopicNamed(Filter(info, Matched(topics))[k].topic)).value].id)
  {
    var m := Matched(topics);
    var matched := Filter(info, m);
    var init, task := info[..|info| - 1], info[|info| - 1];
    var before := Filter(init, m);
    var prev := SeedAll(acc, topics, init);
    var next := SeedAll(acc, topics, info);
    assert next == SeedOne(prev, topics, task);
    assert matched == if m(task) then before + [task] else before by {
      FilterLast(info, m);
    }
    assert |prev.flashcards| == |acc.flashcards| + |before| by {
      SeedCount(acc, topics, init);
    }
    if m(task) {
      assert next.flashcards
          == prev.flashcards + [Flashcard(prev.nextId, Some(topics[IndexWhere(topics, TopicNamed(task.topic)).value].id), task.question)]
      by {
        SeedOneStep(prev, topics, task);
      }
      if k < |before| {
        SeedFlashcards(acc, topics, init, k);
        assert matched[k] == before[k];
      } else {
        assert matched[k] == task;
      }
    } else {
      assert next.flashcards == prev.flashcards by {
        SeedOneStep(prev, topics, task);
      }
      assert matched == before;
      SeedFlashcards(acc, topics, init, k);
    }
  }

  // ---------------------------------------------------------------------
  // answersInfo

  /** `!a.text?.trim()`: the text is missing or whitespace only. */
  predicate HasNoText(a: Answer) {
    a.text.None? || Trim(a.text.value) == []
  }

  /** `a.Flashcard?.Topic?.name ?? 'UNKNOWN'`. */
  function TopicLabel(flashcards: seq<Flashcard>, topics: seq<Topic>, a: Answer): string {
    if a.flashcardId.None? then UnknownTopic
    else match IndexWhere(flashcards, FlashcardWithId(a.flashcardId.value))
      case None => UnknownTopic
      case Some(i) =>
        if flashcards[i].topicId.None? then UnknownTopic
        else match IndexWhere(topics, TopicWithId(flashcards[i].topicId.value))
          case None => UnknownTopic
          case Some(j) => topics[j].name
  }

  function LabelOf(flashcards: seq<Flashcard>, topics: seq<Topic>): Answer -> string {
    (a: Answer) => TopicLabel(flashcards, topics, a)
  }

  /** answersInfo over the three tables: how many answers there are, how
      many have no text, and the distinct topic labels of the latter. */
  function AnswersInfoOf(answers: seq<Answer>, flashcards: seq<Flashcard>, topics: seq<Topic>): (r: AnswersInfo)
    ensures r.answerNum == |answers|
    ensures r.answerNoText + |Filter(answers, Not(HasNoText))| == r.answerNum
    ensures NoDuplicates(r.topicsWithNoText)
    ensures forall a :: a in answers && HasNoText(a) ==> TopicLabel(flashcards, topics, a) in r.topicsWithNoText
    ensures forall x :: x in r.topicsWithNoText ==>
              exists a :: a in answers && HasNoText(a) && TopicLabel(flashcards, topics, a) == x
  {
    var emptyAnswers := Filter(answers, HasNoText);
    FilterPartition(answers, HasNoText);
    var labels := Map(emptyAnswers, LabelOf(flashcards, topics));
    var distinct := DedupBy(labels, Identity);
    forall a | a in answers && HasNoText(a) ensures TopicLabel(flashcards, topics, a) in distinct {
      var k :| 0 <= k < |emptyAnswers| && emptyAnswers[k] == a;
      assert labels[k] in labels;
      assert Identity(labels[k]) in KeySet(labels, Identity);
    }
    forall x | x in distinct ensures exists a :: a in answers && HasNoText(a) && TopicLabel(flashcards, topics, a) == x {
      var k :| 0 <= k < |labels| && labels[k] == x;
      assert emptyAnswers[k] in emptyAnswers;
    }
    AnswersInfo(|answers|, |emptyAnswers|, distinct)
  }

  /** A text-less answer is reported under 'UNKNOWN' when it has no
      flashcard, its flashcard is gone, or that flashcard has no topic or a
      topic that is gone (the requires is vacuous in the first two cases). */
  lemma UnknownWhenRelationMissing(answers: seq<Answer>, flashcards: seq<Flashcard>, topics: seq<Topic>, a: Answer)
    requires a in answers && HasNoText(a)
    requires forall f :: f in flashcards && Some(f.id) == a.flashcardId ==>
               f.topicId.None? || forall t :: t in topics ==> Some(t.id) != f.topicId
    ensures UnknownTopic in AnswersInfoOf(answers, flashcards, topics).topicsWithNoText
  {
    if a.flashcardId.Some? {
      match IndexWhere(flashcards, FlashcardWithId(a.flashcardId.value))
      case None =>
      case Some(i) => assert flashcards[i] in flashcards;
    }
    assert TopicLabel(flashcards, topics, a) == UnknownTopic;
  }

  // ---------------------------------------------------------------------
  // The tables

  /** The seeding tables. */
  class Catalog {
    var subjects: seq<Subject>
    var topics: seq<Topic>
    var flashcards: seq<Flashcard>
    var answers: seq<Answer>
    var nextId: nat

    /** Every stored row's id was handed out by the counter. */
    ghost predicate Valid()
      reads this
    {
      && (forall t :: t in topics ==> t.id < nextId)
      && (forall f :: f in flashcards ==> f.id < nextId)
      && (forall a :: a in answers ==> a.id < nextId)
    }

    constructor (subjects: seq<Subject>)
      ensures Valid()
      ensures this.subjects == subjects && topics == [] && flashcards == [] && answers == [] && nextId == 0
    {
      this.subjects := subjects;
      topics := [];
      flashcards := [];
      answers := [];
      nextId := 0;
    }

    /** Without a subject named 'History' it throws and writes nothing; with
        no topic extracted from the dump it answers with the parsing-error
        text and writes nothing; otherwise it adds one topic per extracted
        name, in order, under the History subject, and answers undefined. */
    method InsertTopic(historyData: FilterFunc.History) returns (r: Result<Option<string>>)
      requires Valid()
      modifies this
      ensures Valid()
      ensures subjects == old(subjects) && flashcards == old(flashcards) && answers == old(answers)
      ensures IndexWhere(subjects, IsHistory()).None? ==>
                r == Err(Thrown(HistorySubjectMissing)) && topics == old(topics) && nextId == old(nextId)
      ensures IndexWhere(subjects, IsHistory()).Some? && FilterFunc.ExtractTopicsFromHistory(historyData) == [] ==>
                r == Ok(Some(ParsingErrorMessage)) && topics == old(topics) && nextId == old(nextId)
      ensures IndexWhere(subjects, IsHistory()).Some? && FilterFunc.ExtractTopicsFromHistory(historyData) != [] ==>
                && r == Ok(None)
                && topics == old(topics) + CreatedTopics(old(nextId),
                     InfoFor(subjects[IndexWhere(subjects, IsHistory()).value].id,
                             FilterFunc.ExtractTopicsFromHistory(historyData)))
                && nextId == old(nextId) + |FilterFunc.ExtractTopicsFromHistory(historyData)|
    {
      var subject := IndexWhere(subjects, IsHistory());
      if subject.None? {
        return Err(Thrown(HistorySubjectMissing));
      }
      var subjectId := subjects[subject.value].id;
      var names := FilterFunc.ExtractTopicsFromHistory(historyData);
      if |names| == 0 {
        return Ok(Some(ParsingErrorMessage));
      }
      var infoToInsert := InfoToInsert(subjectId, names);
      CreateTopics(infoToInsert);
      r := Ok(None);
    }

    /** The `forEach` that turns every name into `{ subject_id, name }`. */
    static method InfoToInsert(subjectId: RowId, names: seq<string>) returns (infoToInsert: seq<InfoObj>)
      ensures infoToInsert == InfoFor(subjectId, names)
    {
      infoToInsert := [];
      var i := 0;
      while i < |names|
        invariant 0 <= i <= |names|
        invariant infoToInsert == InfoFor(subjectId, names[..i])
      {
        assert names[..i + 1] == names[..i] + [names[i]];
        infoToInsert := infoToInsert + [InfoObj(subjectId, names[i])];
        i := i + 1;
      }
      assert names[..i] == names;
    }

    /** `topic.createMany`: every entry becomes a row under a fresh id. */
    method CreateTopics(info: seq<InfoObj>)
      requires Valid()
      modifies this
      ensures Valid()
      ensures subjects == old(subjects) && flashcards == old(flashcards) && answers == old(answers)
      ensures topics == old(topics) + CreatedTopics(old(nextId), info)
      ensures nextId == old(nextId) + |info|
    {
      var created := CreatedTopics(nextId, info);
      forall t | t in created ensures t.id < nextId + |info| {
        var k :| 0 <= k < |created| && created[k] == t;
      }
      topics := topics + created;
      nextId := nextId + |info|;
    }

    /** Looks every task's topic up by name in the topics read before the
        loop: a match creates a flashcard with its answers, anything else is
        kept in `tempArr`, which is returned (the service only logs its
        length). */
    method InsertTask(info: seq<FilteredTask>) returns (tempArr: seq<FilteredTask>)
      requires Valid()
      modifies this
      ensures Valid()
      ensures subjects == old(subjects) && topics == old(topics)
      ensures Seeding(flashcards, answers, nextId, tempArr)
           == SeedAll(Seeding(old(flashcards), old(answers), old(nextId), []), old(topics), info)
    {
      var snapshot := topics;
      ghost var start := Seeding(flashcards, answers, nextId, []);
      tempArr := [];
      var i := 0;
      while i < |info|
        invariant 0 <= i <= |info|
        invariant Valid()
        invariant subjects == old(subjects) && topics == snapshot
        invariant Seeding(flashcards, answers, nextId, tempArr) == SeedAll(start, snapshot, info[..i])
      {
        assert SeedAll(start, snapshot, info[..i + 1])
            == SeedOne(SeedAll(start, snapshot, info[..i]), snapshot, info[i]) by {
          assert info[..i + 1][..i] == info[..i];
        }
        tempArr := InsertOne(snapshot, info[i], tempArr);
        i := i + 1;
      }
      assert info[..i] == info;
    }

    /** One element of `info.map(...)`: create the flashcard under the
        first topic of the task's topic name, or keep the task aside. */
    method InsertOne(snapshot: seq<Topic>, task: FilteredTask, tempArr: seq<FilteredTask>)
      returns (tempArr': seq<FilteredTask>)
      requires Valid()
      modifies this
      ensures Valid()
      ensures subjects == old(subjects) && topics == old(topics)
      ensures Seeding(flashcards, answers, nextId, tempArr')
           == SeedOne(Seeding(old(flashcards), old(answers), old(nextId), tempArr), snapshot, task)
    {
      var topic := IndexWhere(snapshot, TopicNamed(task.topic));
      if topic.Some? {
        CreateFlashcard(snapshot[topic.value].id, task);
        tempArr' := tempArr;
      } else {
        tempArr' := tempArr + [task];
      }
    }

    /** `flashcard.create` with its nested answers: the flashcard takes the
        next id and its answers the ones after it. */
    method CreateFlashcard(topicId: RowId, task: FilteredTask)
      requires Valid()
      modifies this
      ensures Valid()
      ensures subjects == old(subjects) && topics == old(topics)
      ensures flashcards == old(flashcards) + [Flashcard(old(nextId), Some(topicId), task.question)]
      ensures answers == old(answers) + AnswerRows(task.answers, old(nextId), old(nextId) + 1)
      ensures nextId == old(nextId) + 1 + |task.answers|
    {
      var cardId := nextId;
      var rows := AnswerRows(task.answers, cardId, cardId + 1);
      forall a | a in rows ensures a.id < cardId + 1 + |task.answers| {
        var k :| 0 <= k < |rows| && rows[k] == a;
      }
      flashcards := flashcards + [Flashcard(cardId, Some(topicId), task.question)];
      answers := answers + rows;
      nextId := cardId + 1 + |task.answers|;
    }

    /** `topic.deleteMany({ where: { Flashcard: { none: {} } } })`: every
        topic without a flashcard goes; the count is reported. */
    method DeleteEmptyTopics() returns (r: DeleteReply)
      requires Valid()
      modifies this
      ensures Valid()
      ensures subjects == old(subjects) && flashcards == old(flashcards) && answers == old(answers)
      ensures nextId == old(nextId)
      ensures topics == Filter(old(topics), HasFlashcard(flashcards))
      ensures forall t :: t in topics ==> exists f :: f in flashcards && f.topicId == Some(t.id)
      ensures forall t :: t in old(topics) && t !in topics ==> forall f :: f in flashcards ==> f.topicId != Some(t.id)
      ensures r == DeleteReply(EmptyTopicsDeleted, |old(topics)| - |topics|)
      ensures r.deleted == |Filter(old(topics), Not(HasFlashcard(flashcards)))|
    {
      FilterPartition(topics, HasFlashcard(flashcards));
      var kept := Filter(topics, HasFlashcard(flashcards));
      var deleted := |topics| - |kept|;
      topics := kept;
      r := DeleteReply(EmptyTopicsDeleted, deleted);
    }

    /** `flashcard.deleteMany({ where: { Answers: { none: {} } } })`: every
        flashcard without an answer goes; the count is reported. */
    method DeleteEmptyFlashcards() returns (r: DeleteReply)
      requires Valid()
      modifies this
      ensures Valid()
      ensures subjects == old(subjects) && topics == old(topics) && answers == old(answers)
      ensures nextId == old(nextId)
      ensures flashcards == Filter(old(flashcards), HasAnswer(answers))
      ensures forall f :: f in flashcards ==> exists a :: a in answers && a.flashcardId == Some(f.id)
      ensures forall f :: f in old(flashcards) && f !in flashcards ==> forall a :: a in answers ==> a.flashcardId != Some(f.id)
      ensures r == DeleteReply(EmptyFlashcardsDeleted, |old(flashcards)| - |flashcards|)
      ensures r.deleted == |Filter(old(flashcards), Not(HasAnswer(answers)))|
    {
      FilterPartition(flashcards, HasAnswer(answers));
      var kept := Filter(flashcards, HasAnswer(answers));
      var deleted := |flashcards| - |kept|;
      flashcards := kept;
      r := DeleteReply(EmptyFlashcardsDeleted, deleted);
    }
  }

  /** The relation filter `Flashcard: { some: {} }`. */
  function HasFlashcard(flashcards: seq<Flashcard>): Topic -> bool {
    (t: Topic) => exists f :: f in flashcards && f.topicId == Some(t.id)
  }

  /** The relation filter `Answers: { some: {} }`. */
  function HasAnswer(answers: seq<Answer>): Flashcard -> bool {
    (f: Flashcard) => exists a :: a in answers && a.flashcardId == Some(f.id)
  }
}
