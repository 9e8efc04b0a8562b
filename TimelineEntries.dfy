/** A study session as the CSV files carry it: three strings and an
    identifier derived from them. */
module TimelineEntries {
  import opened Wrappers

  /** Equality of two entries is field-wise on the three constructor fields,
      as for a Kotlin data class; the derived `Id` takes no part in it. */
  datatype TimelineEntry = TimelineEntry(date: string, topic: string, duration: string) {

    /** The identifier: the three fields joined by '-'. */
    function Id(): (r: string)
      ensures |r| == |date| + |topic| + |duration| + 2
      ensures r[..|date| + 1] == date + "-"
      ensures r[|date| + 1..|date| + 1 + |topic|] == topic
      ensures r[|r| - |duration| - 1..] == "-" + duration
    {
      date + "-" + topic + "-" + duration
    }
  }

  /** Entries that agree on date, topic and duration are equal and have the
      same identifier. */
  lemma {:induction false} SameFieldsSameId(a: TimelineEntry, b: TimelineEntry)
    requires a.date == b.date && a.topic == b.topic && a.duration == b.duration
    ensures a == b && a.Id() == b.Id()
  {
  }

  /** The identifier does not determine the entry: a '-' inside a field can
      move between fields without changing it. */
  lemma IdNotInjective()
    ensures TimelineEntry("a-b", "c", "d") != TimelineEntry("a", "b-c", "d")
    ensures TimelineEntry("a-b", "c", "d").Id() == TimelineEntry("a", "b-c", "d").Id()
  {
    assert TimelineEntry("a-b", "c", "d").Id() == "a-b-c-d";
    assert TimelineEntry("a", "b-c", "d").Id() == "a-b-c-d";
  }

  /** The position of the last occurrence of `c` in `s`. */
  function LastIndexOf(s: string, c: char): (r: Option<nat>)
    ensures r.Some? ==> r.value < |s| && s[r.value] == c
    ensures r.Some? ==> forall i :: r.value < i < |s| ==> s[i] != c
    ensures r.None? ==> c !in s
  {
    if |s| == 0 then None
    else if s[|s| - 1] == c then Some(|s| - 1)
    else
      var r := LastIndexOf(s[..|s| - 1], c);
      assert r.None? ==> s == s[..|s| - 1] + [s[|s| - 1]];
      r
  }

  /** Reads an identifier back from the right: the duration follows the last
      '-', the topic the one before it. */
  function SplitId(id: string): Option<TimelineEntry> {
    match LastIndexOf(id, '-')
    case None => None
    case Some(k) =>
      match LastIndexOf(id[..k], '-')
      case None => None
      case Some(j) =>
        var front := id[..k];
        Some(TimelineEntry(front[..j], front[j + 1..], id[k + 1..]))
  }

  lemma {:induction false} LastIndexOfJoin(a: string, c: char, b: string)
    requires c !in b
    ensures LastIndexOf(a + [c] + b, c) == Some(|a|)
  {
    var s := a + [c] + b;
    if b != [] {
      var b' := b[..|b| - 1];
      assert s[|s| - 1] == b[|b| - 1];
      assert s[..|s| - 1] == a + [c] + b';
      assert c !in b' by { assert forall x :: x in b' ==> x in b; }
      LastIndexOfJoin(a, c, b');
    }
  }

  /** When topic and duration hold no '-' (the date may), the identifier
      determines the entry. */
  lemma {:induction false} IdSplitsBack(e: TimelineEntry)
    requires '-' !in e.topic && '-' !in e.duration
    ensures SplitId(e.Id()) == Some(e)
  {
    var front := e.date + ['-'] + e.topic;
    var id := front + ['-'] + e.duration;
    assert e.Id() == id;
    LastIndexOfJoin(front, '-', e.duration);
    assert id[..|front|] == front;
    assert id[|front| + 1..] == e.duration;
    LastIndexOfJoin(e.date, '-', e.topic);
    assert front[..|e.date|] == e.date;
    assert front[|e.date| + 1..] == e.topic;
  }

  lemma {:induction false} IdInjectiveWhenDashFree(a: TimelineEntry, b: TimelineEntry)
    requires '-' !in a.topic && '-' !in a.duration
    requires '-' !in b.topic && '-' !in b.duration
    requires a.Id() == b.Id()
    ensures a == b
  {
    IdSplitsBack(a);
    IdSplitsBack(b);
  }
}
