/** `extractTopicsFromHistory`: the distinct, trimmed, non-empty topic
    names of a history dump, in the order they first occur. */
module FilterFunc {
  import opened Sequences
  import opened Text
  import opened Common

  /** A task of the dump; its `topic` may be missing. */
  datatype Task = Task(topic: Option<string>)

  datatype Section = Section(tasks: seq<Task>)

  /** The parsed dump: an array of sections, or any other JSON value. */
  datatype History = Sections(sections: seq<Section>) | NotAnArray

  /** `sections.flatMap(section => section.tasks)`. */
  function AllTasks(sections: seq<Section>): seq<Task> {
    if |sections| == 0 then [] else sections[0].tasks + AllTasks(sections[1..])
  }

  /** The topic a task contributes: its topic trimmed, when that is present
      and not empty. */
  predicate Contributes(t: Task, name: string) {
    t.topic.Some? && Trim(t.topic.value) == name && name != []
  }

  /** `.map(task => task.topic?.trim()).filter(topic => !!topic && topic.length > 0)`. */
  function TrimmedTopics(tasks: seq<Task>): (r: seq<string>)
    ensures forall x :: x in r ==> exists t :: t in tasks && Contributes(t, x)
    ensures forall t :: t in tasks && t.topic.Some? && Trim(t.topic.value) != [] ==> Trim(t.topic.value) in r
  {
    if |tasks| == 0 then []
    else
      var rest := TrimmedTopics(tasks[1..]);
      assert forall t :: t in tasks <==> t == tasks[0] || t in tasks[1..];
      match tasks[0].topic
      case None => rest
      case Some(s) =>
        var trimmed := Trim(s);
        if trimmed == [] then rest
        else
          assert Contributes(tasks[0], trimmed);
          [trimmed] + rest
  }

  /** The exported function: `[]` for anything but an array; otherwise the
      candidates deduplicated by `[...new Set(topics)]`. */
  function ExtractTopicsFromHistory(historyData: History): (r: seq<string>)
    ensures historyData.NotAnArray? ==> r == []
    ensures NoDuplicates(r)
    ensures forall x :: x in r ==> x != [] && !IsWhitespace(x[0]) && !IsWhitespace(x[|x| - 1])
    ensures historyData.Sections? ==>
              forall x :: x in r ==> exists t :: t in AllTasks(historyData.sections) && Contributes(t, x)
    ensures historyData.Sections? ==>
              forall t :: t in AllTasks(historyData.sections) && t.topic.Some? && Trim(t.topic.value) != [] ==>
                Trim(t.topic.value) in r
  {
    match historyData
    case NotAnArray => []
    case Sections(sections) =>
      var topics := TrimmedTopics(AllTasks(sections));
      var r := DedupBy(topics, Identity);
      forall x | x in r ensures x != [] && !IsWhitespace(x[0]) && !IsWhitespace(x[|x| - 1]) {
        var t :| t in AllTasks(sections) && Contributes(t, x);
      }
      forall x | x in topics ensures x in r {
        assert Identity(x) in KeySet(topics, Identity);
      }
      r
  }

  /** The output follows first occurrences: for two names in the output,
      the later one first occurs among the candidates after an occurrence
      of the earlier one, scanning sections and then their tasks. */
  lemma TopicsInFirstOccurrenceOrder(sections: seq<Section>, i: nat, j: nat)
    requires i < j < |ExtractTopicsFromHistory(Sections(sections))|
    ensures exists p, q :: 0 <= p < q < |TrimmedTopics(AllTasks(sections))|
              && TrimmedTopics(AllTasks(sections))[p] == ExtractTopicsFromHistory(Sections(sections))[i]
              && TrimmedTopics(AllTasks(sections))[q] == ExtractTopicsFromHistory(Sections(sections))[j]
              && forall m :: 0 <= m < q ==> TrimmedTopics(AllTasks(sections))[m] != ExtractTopicsFromHistory(Sections(sections))[j]
  {
    var topics := TrimmedTopics(AllTasks(sections));
    var r := ExtractTopicsFromHistory(Sections(sections));
    assert r == DedupBy(topics, Identity);
    DedupByOrder(topics, Identity, i, j);
  }
}
