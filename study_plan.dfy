/** StudyPlanService: building a plan from the answers of an entry test,
    changing the status of a plan topic, and finding a user's plan for a
    subject. The two language-model calls of createPlan are parameters:
    each maps what the service sends to the reply it gets back. */
module StudyPlan {
  import opened Common
  import opened Sequences

  datatype Topic = Topic(id: Id, name: string)

  /** A row of the answer table with `Flashcard.Topic` included; the topic
      is absent when the answer has no flashcard or the flashcard no topic. */
  datatype AnswerRow = AnswerRow(id: Id, isCorrect: bool, topic: Option<Topic>)

  /** One submitted result of the entry test. */
  datatype ResultItem = ResultItem(topicId: Id, flashcardId: Id, answerId: Id)

  /** `{ topicId, topic }`, what the analysis call receives and returns. */
  datatype TopicObj = TopicObj(topicId: Id, topic: string)

  /** What the support-message call is told. */
  datatype Counts = Counts(taskNum: int, correctTaskNum: int)

  /** The support reply's `output_text` after `JSON.parse`: its `message`
      field (possibly missing), or a parse failure. */
  datatype SupportReply = SupportParsed(message: Option<string>) | SupportUnparsable

  /** The analysis reply's `output_text.ids`: missing or empty, present but
      not parseable, or parsed to a list of topics. */
  datatype AnalysisReply = NoIds | IdsUnparsable | IdsParsed(topics: seq<TopicObj>)

  /** What createPlan returns. */
  datatype Plan = Plan(message: Option<string>, topics: seq<Id>)

  function AnswerIdOf(a: AnswerRow): Id { a.id }

  function ResultAnswerId(r: ResultItem): Id { r.answerId }

  function TopicObjId(t: TopicObj): Id { t.topicId }

  function IsWrong(a: AnswerRow): bool { !a.isCorrect }

  // ---------------------------------------------------------------------
  // createPlan, as functions of its inputs

  /** The answer ids of the submitted results. */
  function SubmittedAnswerIds(results: seq<ResultItem>): set<Id> {
    KeySet(results, ResultAnswerId)
  }

  /** `answer.findMany({ where: { id: { in: answerIds } } })`, in table order. */
  function Fetched(answers: seq<AnswerRow>, results: seq<ResultItem>): seq<AnswerRow> {
    Filter(answers, KeyIn(AnswerIdOf, SubmittedAnswerIds(results)))
  }

  /** The fetched answers marked incorrect. */
  function WrongAnswers(answers: seq<AnswerRow>, results: seq<ResultItem>): (r: seq<AnswerRow>)
    ensures forall a :: a in r <==> a in answers && !a.isCorrect && a.id in SubmittedAnswerIds(results)
  {
    var fetched := Fetched(answers, results);
    var r := Filter(fetched, IsWrong);
    forall a ensures a in r <==> a in answers && !a.isCorrect && a.id in SubmittedAnswerIds(results) {
      assert a in r <==> a in fetched && IsWrong(a);
      assert a in fetched <==> a in answers && KeyIn(AnswerIdOf, SubmittedAnswerIds(results))(a);
      assert KeyIn(AnswerIdOf, SubmittedAnswerIds(results))(a) == (AnswerIdOf(a) in SubmittedAnswerIds(results));
      assert AnswerIdOf(a) == a.id;
    }
    r
  }

  /** `taskNum - wrongAnswers.length`: a submitted answer id that the table
      does not hold is counted as correct. */
  function CorrectTaskNum(answers: seq<AnswerRow>, results: seq<ResultItem>): int {
    |results| - |WrongAnswers(answers, results)|
  }

  /** With answer ids unique (they are the table's primary key), the
      correct count lies between 0 and the number of submitted results. */
  lemma CorrectTaskNumBounds(answers: seq<AnswerRow>, results: seq<ResultItem>)
    requires UniqueKeys(answers, AnswerIdOf)
    ensures 0 <= CorrectTaskNum(answers, results) <= |results|
  {
    FilterByKeysBound(answers, AnswerIdOf, SubmittedAnswerIds(results));
    KeySetBound(results, ResultAnswerId);
  }

  /** Results whose answers are all correct, or not in the table at all,
      count as all correct. */
  lemma NoWrongAnswerAllCorrect(answers: seq<AnswerRow>, results: seq<ResultItem>)
    requires forall a :: a in answers && a.id in SubmittedAnswerIds(results) ==> a.isCorrect
    ensures WrongAnswers(answers, results) == []
    ensures CorrectTaskNum(answers, results) == |results|
  {
    var fetched := Fetched(answers, results);
    forall i | 0 <= i < |fetched| ensures !IsWrong(fetched[i]) {
      assert fetched[i] in fetched;
      assert fetched[i] in answers && KeyIn(AnswerIdOf, SubmittedAnswerIds(results))(fetched[i]);
      assert fetched[i].id in SubmittedAnswerIds(results);
      assert fetched[i].isCorrect;
    }
    FilterNone(fetched, IsWrong);
  }

  predicate AllHaveTopic(wrong: seq<AnswerRow>) {
    forall a :: a in wrong ==> a.topic.Some?
  }

  function TopicObjOf(a: AnswerRow): TopicObj
    requires a.topic.Some?
  {
    TopicObj(a.topic.value.id, a.topic.value.name)
  }

  function TopicObjs(wrong: seq<AnswerRow>): (r: seq<TopicObj>)
    requires AllHaveTopic(wrong)
    ensures |r| == |wrong|
    ensures forall i :: 0 <= i < |wrong| ==> r[i] == TopicObjOf(wrong[i])
  {
    seq(|wrong|, i requires 0 <= i < |wrong| => TopicObjOf(wrong[i]))
  }

  /** The values of `wrongTopicsMap`: every topic of a wrong answer once,
      in the order topics first occur, each with the name it had where it
      first occurred. */
  function WrongTopics(wrong: seq<AnswerRow>): (r: seq<TopicObj>)
    requires AllHaveTopic(wrong)
    ensures UniqueKeys(r, TopicObjId)
    ensures forall i :: 0 <= i < |wrong| ==> wrong[i].topic.value.id in KeySet(r, TopicObjId)
    ensures forall t :: t in r ==>
              exists i :: 0 <= i < |wrong| && TopicObjOf(wrong[i]) == t
                && forall j :: 0 <= j < i ==> wrong[j].topic.value.id != t.topicId
  {
    var objs := TopicObjs(wrong);
    var r := DedupBy(objs, TopicObjId);
    forall i | 0 <= i < |wrong| ensures wrong[i].topic.value.id in KeySet(r, TopicObjId) {
      assert objs[i] in objs;
    }
    forall t | t in r
      ensures exists i :: 0 <= i < |wrong| && TopicObjOf(wrong[i]) == t
                && forall j :: 0 <= j < i ==> wrong[j].topic.value.id != t.topicId
    {
      DedupByKeepsFirst(objs, TopicObjId, t);
      var i :| 0 <= i < |objs| && objs[i] == t && forall j :: 0 <= j < i ==> TopicObjId(objs[j]) != TopicObjId(t);
      assert forall j :: 0 <= j < i ==> wrong[j].topic.value.id == TopicObjId(objs[j]);
    }
    r
  }

  /** The wrong topics come in the order their ids first occur among the
      wrong answers: of two listed topics, the later one's id first occurs
      (at `q`) after an occurrence (at `p`) of the earlier one. */
  lemma WrongTopicsInFirstOccurrenceOrder(wrong: seq<AnswerRow>, i: nat, j: nat)
    requires AllHaveTopic(wrong)
    requires i < j < |WrongTopics(wrong)|
    ensures exists p, q :: 0 <= p < q < |wrong|
              && TopicObjs(wrong)[p] == WrongTopics(wrong)[i]
              && TopicObjs(wrong)[q] == WrongTopics(wrong)[j]
              && forall m :: 0 <= m < q ==> TopicObjs(wrong)[m].topicId != TopicObjs(wrong)[q].topicId
  {
    var objs := TopicObjs(wrong);
    assert WrongTopics(wrong) == DedupBy(objs, TopicObjId);
    DedupByOrder(objs, TopicObjId, i, j);
  }

  lemma TopicObjsSnoc(before: seq<AnswerRow>, a: AnswerRow)
    requires AllHaveTopic(before) && a.topic.Some?
    ensures AllHaveTopic(before + [a])
    ensures TopicObjs(before + [a]) == TopicObjs(before) + [TopicObjOf(a)]
  {
    assert forall b :: b in before + [a] ==> b in before || b == a;
  }

  /** The ids of the wrong topics: each once, and exactly the topics of the
      wrong answers. */
  lemma WrongTopicIds(wrong: seq<AnswerRow>)
    requires AllHaveTopic(wrong)
    ensures NoDuplicates(Map(WrongTopics(wrong), TopicObjId))
    ensures forall a :: a in wrong ==> a.topic.value.id in Map(WrongTopics(wrong), TopicObjId)
    ensures forall id :: id in Map(WrongTopics(wrong), TopicObjId) ==> exists a :: a in wrong && a.topic.value.id == id
  {
    var wt := WrongTopics(wrong);
    var ids := Map(wt, TopicObjId);
    MapKeys(wt, TopicObjId);
    forall a | a in wrong ensures a.topic.value.id in ids {
      var i :| 0 <= i < |wrong| && wrong[i] == a;
    }
    forall id | id in ids ensures exists a :: a in wrong && a.topic.value.id == id {
      var t :| t in wt && TopicObjId(t) == id;
      var i :| 0 <= i < |wrong| && TopicObjOf(wrong[i]) == t;
      assert wrong[i] in wrong;
    }
  }

  /** `analysedTopics`: the analysis is asked only when some answer was
      wrong, and its reply replaces the wrong topics only when its ids are
      present and parse. */
  function AnalysedTopics(wrongTopics: seq<TopicObj>, analiseAnswers: seq<TopicObj> -> AnalysisReply): (r: seq<TopicObj>)
    ensures wrongTopics == [] ==> r == []
    ensures wrongTopics != [] && analiseAnswers(wrongTopics).IdsParsed? ==> r == analiseAnswers(wrongTopics).topics
    ensures !analiseAnswers(wrongTopics).IdsParsed? ==> r == wrongTopics
  {
    if |wrongTopics| == 0 then wrongTopics
    else match analiseAnswers(wrongTopics)
      case NoIds => wrongTopics
      case IdsUnparsable => wrongTopics
      case IdsParsed(topics) => topics
  }

  /** What createPlan returns for a given answer table, submission and pair
      of language-model replies. */
  function PlanFor(answers: seq<AnswerRow>, results: seq<ResultItem>,
                   supportMsg: Counts -> SupportReply, analiseAnswers: seq<TopicObj> -> AnalysisReply): Result<Plan>
  {
    var wrong := WrongAnswers(answers, results);
    if !AllHaveTopic(wrong) then Err(Thrown(MissingRelation))
    else match supportMsg(Counts(|results|, CorrectTaskNum(answers, results)))
      case SupportUnparsable => Err(Thrown(UnparsableReply))
      case SupportParsed(message) =>
        Ok(Plan(message, Map(AnalysedTopics(WrongTopics(wrong), analiseAnswers), TopicObjId)))
  }

  /** The support call is told the number of results and of correct ones;
      its message is passed through, whatever the rest of the plan. */
  lemma PlanMessageFromSupport(answers: seq<AnswerRow>, results: seq<ResultItem>,
                               supportMsg: Counts -> SupportReply, analiseAnswers: seq<TopicObj> -> AnalysisReply)
    requires AllHaveTopic(WrongAnswers(answers, results))
    ensures var reply := supportMsg(Counts(|results|, CorrectTaskNum(answers, results)));
            var plan := PlanFor(answers, results, supportMsg, analiseAnswers);
            && (reply.SupportUnparsable? <==> plan == Err(Thrown(UnparsableReply)))
            && (reply.SupportParsed? ==> plan.Ok? && plan.value.message == reply.message)
  {
  }

  /** With no wrong answer the analysis is never consulted and the plan
      has no topics. */
  lemma NoWrongAnswersNoTopics(answers: seq<AnswerRow>, results: seq<ResultItem>,
                               supportMsg: Counts -> SupportReply, analiseAnswers: seq<TopicObj> -> AnalysisReply)
    requires WrongAnswers(answers, results) == []
    requires supportMsg(Counts(|results|, |results|)).SupportParsed?
    ensures PlanFor(answers, results, supportMsg, analiseAnswers)
         == Ok(Plan(supportMsg(Counts(|results|, |results|)).message, []))
  {
    var wrong := WrongAnswers(answers, results);
    assert TopicObjs(wrong) == [];
    assert WrongTopics(wrong) == [];
  }

  /** When the analysis gives no usable ids the plan lists the topic of
      every wrong answer, each once, and nothing else. */
  lemma FallbackListsWrongTopics(answers: seq<AnswerRow>, results: seq<ResultItem>,
                                 supportMsg: Counts -> SupportReply, analiseAnswers: seq<TopicObj> -> AnalysisReply)
    requires AllHaveTopic(WrongAnswers(answers, results))
    requires supportMsg(Counts(|results|, CorrectTaskNum(answers, results))).SupportParsed?
    requires !analiseAnswers(WrongTopics(WrongAnswers(answers, results))).IdsParsed?
    ensures PlanFor(answers, results, supportMsg, analiseAnswers).Ok?
    ensures PlanFor(answers, results, supportMsg, analiseAnswers).value.topics
         == Map(WrongTopics(WrongAnswers(answers, results)), TopicObjId)
    ensures var topics := PlanFor(answers, results, supportMsg, analiseAnswers).value.topics;
            && NoDuplicates(topics)
            && (forall a :: a in WrongAnswers(answers, results) ==> a.topic.value.id in topics)
            && (forall id :: id in topics ==> exists a :: a in WrongAnswers(answers, results) && a.topic.value.id == id)
  {
    var wrong := WrongAnswers(answers, results);
    assert PlanFor(answers, results, supportMsg, analiseAnswers).value.topics == Map(WrongTopics(wrong), TopicObjId);
    WrongTopicIds(wrong);
  }

  /** In the fallback the plan's topic ids follow the order in which they
      first occur among the wrong answers. */
  lemma FallbackTopicsInFirstOccurrenceOrder(answers: seq<AnswerRow>, results: seq<ResultItem>,
                                             supportMsg: Counts -> SupportReply, analiseAnswers: seq<TopicObj> -> AnalysisReply,
                                             i: nat, j: nat)
    requires AllHaveTopic(WrongAnswers(answers, results))
    requires supportMsg(Counts(|results|, CorrectTaskNum(answers, results))).SupportParsed?
    requires !analiseAnswers(WrongTopics(WrongAnswers(answers, results))).IdsParsed?
    requires i < j < |WrongTopics(WrongAnswers(answers, results))|
    ensures PlanFor(answers, results, supportMsg, analiseAnswers).Ok?
    ensures var topics := PlanFor(answers, results, supportMsg, analiseAnswers).value.topics;
            var objs := TopicObjs(WrongAnswers(answers, results));
            && j < |topics|
            && exists p, q :: 0 <= p < q < |objs|
                 && objs[p].topicId == topics[i]
                 && objs[q].topicId == topics[j]
                 && forall m :: 0 <= m < q ==> objs[m].topicId != topics[j]
  {
    var wrong := WrongAnswers(answers, results);
    FallbackListsWrongTopics(answers, results, supportMsg, analiseAnswers);
    var topics := PlanFor(answers, results, supportMsg, analiseAnswers).value.topics;
    WrongTopicIdsInOrder(wrong, topics, i, j);
  }

  /** The order fact above, carried over to the ids of the wrong topics. */
  lemma WrongTopicIdsInOrder(wrong: seq<AnswerRow>, ids: seq<Id>, i: nat, j: nat)
    requires AllHaveTopic(wrong)
    requires ids == Map(WrongTopics(wrong), TopicObjId)
    requires i < j < |WrongTopics(wrong)|
    ensures j < |ids|
    ensures exists p, q :: 0 <= p < q < |TopicObjs(wrong)|
              && TopicObjs(wrong)[p].topicId == ids[i]
              && TopicObjs(wrong)[q].topicId == ids[j]
              && forall m :: 0 <= m < q ==> TopicObjs(wrong)[m].topicId != ids[j]
  {
    WrongTopicsInFirstOccurrenceOrder(wrong, i, j);
  }

  /** One iteration of the loop below: the map gains the answer's topic
      exactly when its id is not yet a key. */
  lemma CollectStep(wrongAnswers: seq<AnswerRow>, i: nat, wrongTopics: seq<TopicObj>, seen: set<Id>)
    requires i < |wrongAnswers| && AllHaveTopic(wrongAnswers[..i]) && wrongAnswers[i].topic.Some?
    requires wrongTopics == DedupBy(TopicObjs(wrongAnswers[..i]), TopicObjId)
    requires seen == KeySet(wrongTopics, TopicObjId)
    ensures AllHaveTopic(wrongAnswers[..i + 1])
    ensures var obj := TopicObjOf(wrongAnswers[i]);
            && (obj.topicId in seen ==> DedupBy(TopicObjs(wrongAnswers[..i + 1]), TopicObjId) == wrongTopics)
            && (obj.topicId !in seen ==> DedupBy(TopicObjs(wrongAnswers[..i + 1]), TopicObjId) == wrongTopics + [obj])
            && KeySet(wrongTopics + [obj], TopicObjId) == seen + {obj.topicId}
  {
    var answer := wrongAnswers[i];
    assert wrongAnswers[..i + 1] == wrongAnswers[..i] + [answer];
    TopicObjsSnoc(wrongAnswers[..i], answer);
    DedupBySnoc(TopicObjs(wrongAnswers[..i]), TopicObjOf(answer), TopicObjId);
    KeySetSnoc(wrongTopics, TopicObjOf(answer), TopicObjId);
  }

  /** The `for` loop that fills `wrongTopicsMap`, kept here as the map's
      values in insertion order together with its key set. Reading the topic
      of a wrong answer that has none throws (None here). */
  method CollectWrongTopics(wrongAnswers: seq<AnswerRow>) returns (r: Option<seq<TopicObj>>)
    ensures r.None? <==> !AllHaveTopic(wrongAnswers)
    ensures r.Some? ==> AllHaveTopic(wrongAnswers) && r.value == WrongTopics(wrongAnswers)
  {
    var wrongTopics: seq<TopicObj> := [];
    var seen: set<Id> := {};
    var i := 0;
    while i < |wrongAnswers|
      invariant 0 <= i <= |wrongAnswers|
      invariant AllHaveTopic(wrongAnswers[..i])
      invariant wrongTopics == DedupBy(TopicObjs(wrongAnswers[..i]), TopicObjId)
      invariant seen == KeySet(wrongTopics, TopicObjId)
    {
      var answer := wrongAnswers[i];
      if answer.topic.None? {
        assert answer in wrongAnswers;
        return None;
      }
      var topic := answer.topic.value;
      CollectStep(wrongAnswers, i, wrongTopics, seen);
      if topic.id !in seen {
        wrongTopics := wrongTopics + [TopicObj(topic.id, topic.name)];
        seen := seen + {topic.id};
      }
      i := i + 1;
    }
    assert wrongAnswers[..i] == wrongAnswers;
    r := Some(wrongTopics);
  }

  /** The `forEach` that pushes each analysed topic's id into `studyPlan`. */
  method PushTopicIds(analysedTopics: seq<TopicObj>) returns (studyPlan: seq<Id>)
    ensures |studyPlan| == |analysedTopics|
    ensures forall k :: 0 <= k < |analysedTopics| ==> studyPlan[k] == analysedTopics[k].topicId
  {
    studyPlan := [];
    var j := 0;
    while j < |analysedTopics|
      invariant 0 <= j <= |analysedTopics|
      invariant |studyPlan| == j
      invariant forall k :: 0 <= k < j ==> studyPlan[k] == analysedTopics[k].topicId
    {
      studyPlan := studyPlan + [analysedTopics[j].topicId];
      j := j + 1;
    }
  }

  /** createPlan: fetches the answers, counts, collects the wrong topics,
      asks for the support message and (when there are wrong topics) the
      analysis, and lists the topic ids of the analysed topics. A wrong
      answer whose flashcard or topic is missing makes the topic read throw;
      an unparseable support reply makes `JSON.parse` throw. The plan is not
      stored. */
  method CreatePlan(answers: seq<AnswerRow>, results: seq<ResultItem>,
                    supportMsg: Counts -> SupportReply, analiseAnswers: seq<TopicObj> -> AnalysisReply)
    returns (r: Result<Plan>)
    ensures r == PlanFor(answers, results, supportMsg, analiseAnswers)
  {
    var taskNum := |results|;
    var fetched := Fetched(answers, results);
    var wrongAnswers := Filter(fetched, IsWrong);
    var correctTaskNum := taskNum - |wrongAnswers|;
    assert wrongAnswers == WrongAnswers(answers, results);
    assert correctTaskNum == CorrectTaskNum(answers, results);

    var collected := CollectWrongTopics(wrongAnswers);
    if collected.None? {
      assert !AllHaveTopic(WrongAnswers(answers, results));
      return Err(Thrown(MissingRelation));
    }
    var wrongTopics := collected.value;
    assert wrongTopics == WrongTopics(WrongAnswers(answers, results));

    var support := supportMsg(Counts(taskNum, correctTaskNum));
    if support.SupportUnparsable? {
      return Err(Thrown(UnparsableReply));
    }
    var message := support.message;

    var analysedTopics := wrongTopics;
    if |wrongTopics| > 0 {
      var reply := analiseAnswers(wrongTopics);
      if reply.IdsParsed? {
        analysedTopics := reply.topics;
      }
    }

    var studyPlan := PushTopicIds(analysedTopics);
    assert analysedTopics == AnalysedTopics(wrongTopics, analiseAnswers);
    assert studyPlan == Map(analysedTopics, TopicObjId);
    assert PlanFor(answers, results, supportMsg, analiseAnswers)
        == Ok(Plan(message, Map(AnalysedTopics(wrongTopics, analiseAnswers), TopicObjId)));
    r := Ok(Plan(message, studyPlan));
  }

  // ---------------------------------------------------------------------
  // The plan tables: updateTopicStatus and getPlanBySubject

  /** The topic status enumeration; its members are not part of this model. */
  type Status = string

  datatype StudyPlanRow = StudyPlanRow(id: Id, userId: Id, subjectId: Id)

  datatype PlanTopic = PlanTopic(id: Id, planId: Id, name: string, status: Status)

  /** A plan with its included topics. */
  datatype PlanView = PlanView(plan: StudyPlanRow, topics: set<PlanTopic>)

  function PlanHasId(id: Id): StudyPlanRow -> bool { (p: StudyPlanRow) => p.id == id }

  function OfUserAndSubject(userId: Id, subjectId: Id): StudyPlanRow -> bool {
    (p: StudyPlanRow) => p.userId == userId && p.subjectId == subjectId
  }

  /** The owner of a plan, read through the topic's `StudyPlan` relation. */
  function OwnerOf(plans: seq<StudyPlanRow>, planId: Id): (r: Option<Id>)
    ensures r.None? <==> forall p :: p in plans ==> p.id != planId
    ensures r.Some? ==> exists p :: p in plans && p.id == planId && p.userId == r.value
  {
    match IndexWhere(plans, PlanHasId(planId))
    case None => None
    case Some(i) => Some(plans[i].userId)
  }

  class PlanStore {
    var plans: seq<StudyPlanRow>
    var planTopics: map<Id, PlanTopic>

    /** Every plan topic is stored under its own id. */
    ghost predicate Valid()
      reads this
    {
      forall id :: id in planTopics ==> planTopics[id].id == id
    }

    constructor (initialPlans: seq<StudyPlanRow>, initialTopics: map<Id, PlanTopic>)
      requires forall id :: id in initialTopics ==> initialTopics[id].id == id
      ensures Valid()
      ensures plans == initialPlans && planTopics == initialTopics
    {
      plans := initialPlans;
      planTopics := initialTopics;
    }

    /** An unknown topic is NotFound; a topic of another user's plan is
        Forbidden; in both cases nothing is written. Otherwise only that
        topic's status changes, to the given one. */
    method UpdateTopicStatus(userId: Id, topicId: Id, status: Status) returns (r: Result<PlanTopic>)
      requires Valid()
      modifies this
      ensures Valid()
      ensures r.Ok? ==> r.value.id == topicId && r.value.status == status
      ensures plans == old(plans)
      ensures topicId !in old(planTopics) ==>
                r == Err(NotFound(PlanTopicNotFound)) && planTopics == old(planTopics)
      ensures topicId in old(planTopics) ==>
                var topic := old(planTopics)[topicId];
                match OwnerOf(plans, topic.planId)
                case None =>
                  r == Err(Thrown(MissingRelation)) && planTopics == old(planTopics)
                case Some(owner) =>
                  if owner != userId then
                    r == Err(Forbidden(NotPlanOwner)) && planTopics == old(planTopics)
                  else
                    && r == Ok(topic.(status := status))
                    && planTopics == old(planTopics)[topicId := topic.(status := status)]
      // whatever happens, no other topic changes
      ensures planTopics.Keys == old(planTopics).Keys
      ensures forall id :: id in planTopics && id != topicId ==> planTopics[id] == old(planTopics)[id]
    {
      if topicId !in planTopics {
        return Err(NotFound(PlanTopicNotFound));
      }
      var topic := planTopics[topicId];
      var owner := OwnerOf(plans, topic.planId);
      if owner.None? {
        return Err(Thrown(MissingRelation));
      }
      if owner.value != userId {
        return Err(Forbidden(NotPlanOwner));
      }
      var updated := topic.(status := status);
      planTopics := planTopics[topicId := updated];
      r := Ok(updated);
    }

    /** `studyPlan.findFirst({ where: { user_id, subject_id } })` with its
        topics included: the first plan of that user for that subject, or
        NotFound when there is none. */
    function GetPlanBySubject(userId: Id, subjectId: Id): (r: Result<PlanView>)
      reads this
      ensures r.Err? <==> forall p :: p in plans ==> !(p.userId == userId && p.subjectId == subjectId)
      ensures r.Err? ==> r == Err(NotFound(PlanNotFound))
      ensures r.Ok? ==>
                exists i :: 0 <= i < |plans| && plans[i] == r.value.plan
                  && r.value.plan.userId == userId && r.value.plan.subjectId == subjectId
                  && forall j :: 0 <= j < i ==> !(plans[j].userId == userId && plans[j].subjectId == subjectId)
      ensures r.Ok? ==> forall t :: t in r.value.topics <==> t in planTopics.Values && t.planId == r.value.plan.id
    {
      match IndexWhere(plans, OfUserAndSubject(userId, subjectId))
      case None => Err(NotFound(PlanNotFound))
      case Some(i) =>
        var plan := plans[i];
        Ok(PlanView(plan, set t | t in planTopics.Values && t.planId == plan.id))
    }
  }
}
