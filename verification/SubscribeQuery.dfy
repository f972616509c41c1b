/** The query text of a subscribe frame, and a reader that takes the event names out of it again. */
module SubscribeQuery {
  import opened Text

  function Join(events: seq<string>, sep: string): string {
    if events == [] then "" else if |events| == 1 then events[0] else events[0] + sep + Join(events[1..], sep)
  }

  function Query(events: seq<string>): string {
    "tm.event='" + Join(events, "' OR tm.event='") + "'"
  }

  /** The names between the quotes of each `tm.event='...'`, where these are joined by ` OR `. */
  function Asked(query: string): Option<seq<string>>
    decreases |query|
  {
    if !("tm.event='" <= query) then None
    else
      var rest := query[10..];
      var end := FirstIndex(rest, '\'');
      if end >= |rest| then None
      else if rest[end + 1..] == "" then Some([rest[..end]])
      else if !(" OR " <= rest[end + 1..]) then None
      else
        var others := Asked(rest[end + 5..]);
        if others.None? then None else Some([rest[..end]] + others.value)
  }

  /** At least one name, and no quote in any of them. */
  predicate PlainNames(events: seq<string>) {
    events != [] && forall i :: 0 <= i < |events| ==> '\'' !in events[i]
  }

  /** `query` asks for exactly these events. Names with a quote cannot be read back, so there the text itself
      counts. */
  ghost predicate AsksFor(query: string, events: seq<string>) {
    if PlainNames(events) then Asked(query) == Some(events) else query == Query(events)
  }

  /** The text of the whole list is the text of its first name and that of the others. */
  lemma QueryCons(events: seq<string>)
    requires |events| > 1
    ensures Query(events) == "tm.event='" + events[0] + "'" + " OR " + Query(events[1..])
  {
    var sep := "' OR tm.event='";
    assert sep == "'" + " OR " + "tm.event='";
    assert Join(events, sep) == events[0] + sep + Join(events[1..], sep);
  }

  lemma AskedStep(name: string, more: string)
    requires '\'' !in name
    ensures Asked("tm.event='" + name + "'") == Some([name])
    ensures var others := Asked(more);
            Asked("tm.event='" + name + "'" + " OR " + more)
              == if others.None? then None else Some([name] + others.value)
  {
    AskedTail(name, "");
    assert "tm.event='" + name + "'" + "" == "tm.event='" + name + "'";
    AskedTail(name, " OR " + more);
    assert "tm.event='" + name + "'" + (" OR " + more) == "tm.event='" + name + "'" + " OR " + more;
    assert (" OR " + more)[4..] == more;
  }

  lemma AskedTail(name: string, tail: string)
    requires '\'' !in name
    ensures Asked("tm.event='" + name + "'" + tail) ==
              if tail == "" then Some([name])
              else if !(" OR " <= tail) then None
              else if Asked(tail[4..]).None? then None
              else Some([name] + Asked(tail[4..]).value)
  {
    var query := "tm.event='" + name + "'" + tail;
    var rest := query[10..];
    assert rest == name + ['\''] + tail;
    FirstSeparator(name, tail, '\'');
    assert rest[..|name|] == name && rest[|name| + 1..] == tail;
    if 4 <= |tail| {
      assert rest[|name| + 5..] == tail[4..];
    }
  }

  lemma {:induction false} QueryReadsBack(events: seq<string>)
    requires PlainNames(events)
    ensures Asked(Query(events)) == Some(events)
    decreases |events|
  {
    if |events| == 1 {
      AskedStep(events[0], "");
      assert events == [events[0]];
    } else {
      QueryCons(events);
      QueryReadsBack(events[1..]);
      AskedStep(events[0], Query(events[1..]));
      assert events == [events[0]] + events[1..];
    }
  }

  lemma {:induction false} AskedIsPlain(query: string)
    ensures Asked(query).Some? ==> PlainNames(Asked(query).value)
    decreases |query|
  {
    if "tm.event='" <= query {
      var rest := query[10..];
      var end := FirstIndex(rest, '\'');
      BeforeFirstIndex(rest, '\'');
      if end < |rest| && " OR " <= rest[end + 1..] {
        AskedIsPlain(rest[end + 5..]);
      }
    }
  }

  /** The reader gives back exactly the events the query was made of, if and only if there are some and none
      contains a quote. */
  lemma AskedIff(events: seq<string>)
    ensures Asked(Query(events)) == Some(events) <==> PlainNames(events)
    ensures AsksFor(Query(events), events)
  {
    AskedIsPlain(Query(events));
    if PlainNames(events) {
      QueryReadsBack(events);
    }
  }

  /** Without events the query asks for an event with no name. */
  lemma EmptyQuery()
    ensures Query([]) == "tm.event=''" && Asked(Query([])) == Some([""])
  {
    AskedStep("", "");
  }
}
