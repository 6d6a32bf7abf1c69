/** The object that routes both output streams of one clush run (`_ClushDirectLog`). */
module ClushLog {
  import opened Wrappers
  import opened Bytes
  import opened ClushRouter

  datatype Stream = Stdout | Stderr

  class DirectLog {
    const writers: seq<Writer>
    var pending: map<Stream, Bytes>
    var active: map<Stream, Option<Name>>
    var fed: map<Stream, seq<Delivery>>

    ghost predicate Valid()
      reads this
    {
      forall s: Stream :: s in pending && s in active && s in fed
    }

    /** What the router of one stream would hold. */
    ghost function Of(stream: Stream): State
      reads this
      requires Valid()
    {
      State(pending[stream], active[stream], fed[stream])
    }

    constructor (writers: seq<Writer>)
      ensures Valid() && this.writers == writers
      ensures forall s: Stream :: Of(s) == State([], None, [])
    {
      this.writers := writers;
      pending := map[Stdout := [], Stderr := []];
      active := map[Stdout := None, Stderr := None];
      fed := map[Stdout := [], Stderr := []];
      new;
      forall s: Stream ensures s in pending && s in active && s in fed { AnyStream(s); }
    }

    /** Hand a line to the node it names, or to the first writer of every group. */
    method Emit(stream: Stream, line: Bytes, continuation: bool) returns (node: Option<Name>)
      requires Valid() && continuation == active[stream].Some?
      modifies `fed
      ensures Valid()
      ensures node == Target(writers, active[stream], line)
      ensures fed == old(fed)[stream := old(fed[stream]) + Deliveries(writers, active[stream], line)]
    {
      hide HasLabel;
      if continuation {
        node := active[stream];
        fed := fed[stream := fed[stream] + [Delivery(node.value, Labelled, line)]];
        return;
      }
      node := None;
      var i := 0;
      assert writers[0..] == writers;
      while i < |writers| && node.None?
        invariant 0 <= i <= |writers|
        invariant Match(writers, line) == if node.None? then Match(writers[i..], line) else node
        invariant node.Some? ==> HasLabel(line, node.value)
      {
        assert writers[i..][1..] == writers[i + 1..];
        if HasLabel(line, writers[i].name) {
          node := Some(writers[i].name);
        }
        i := i + 1;
      }
      if node.Some? {
        HasLabelLength(line, node.value);
        fed := fed[stream := fed[stream] + [Delivery(node.value, Labelled, line[|node.value| + 2..])]];
      } else {
        Broadcast(stream, line);
      }
    }

    /** Once per group, however many of its nodes have a writer. */
    method Broadcast(stream: Stream, line: Bytes)
      requires Valid()
      modifies `fed
      ensures Valid()
      ensures fed == old(fed)[stream := old(fed[stream]) + ToAll(FirstNames(writers, {}), line)]
    {
      hide ToAll, FirstNames;
      var seen: set<Group> := {};
      assert writers[0..] == writers;
      for i := 0 to |writers|
        invariant Valid() && fed == old(fed)[stream := fed[stream]]
        invariant fed[stream] + ToAll(FirstNames(writers[i..], seen), line)
               == old(fed[stream]) + ToAll(FirstNames(writers, {}), line)
      {
        var writer := writers[i];
        assert writers[i..][1..] == writers[i + 1..] && writers[i..][0] == writer;
        FirstOfToAll(writers[i..], seen, line);
        if writer.group !in seen {
          Regroup(fed[stream], [Delivery(writer.name, Diagnostic, line)],
                  ToAll(FirstNames(writers[i + 1..], seen + {writer.group}), line));
          fed := fed[stream := fed[stream] + [Delivery(writer.name, Diagnostic, line)]];
          seen := seen + {writer.group};
        }
      }
      assert writers[|writers|..] == [] && fed[stream] + [] == fed[stream];
      NoneLeft(seen, line);
    }

    /** One round of the loop in `feed`; `more` says whether it goes on. */
    method Step(stream: Stream) returns (more: bool)
      requires Valid()
      modifies this
      ensures Valid()
      ensures Drain(writers, old(Of(stream))) == if more then Drain(writers, Of(stream)) else Of(stream)
      ensures more ==> |pending[stream]| < |old(pending[stream])|
      ensures forall s: Stream :: s != stream ==> Of(s) == old(Of(s))
    {
      hide Deliveries, Target, Drain, IndexOf;
      var text := pending[stream];
      var newline := IndexOf(text, NEWLINE);
      ghost var before := Of(stream);
      DrainStep(writers, before);
      more := newline < |text|;
      if more {
        var node := Emit(stream, text[..newline + 1], active[stream].Some?);
        pending, active := pending[stream := text[newline + 1..]], active[stream := None];
        assert Of(stream)
            == State(text[newline + 1..], None, before.trace + Deliveries(writers, before.active, text[..newline + 1]));
      } else if |text| >= LIMIT {
        var node := Emit(stream, text, active[stream].Some?);
        pending, active := pending[stream := []], active[stream := node];
      }
    }

    method Feed(stream: Stream, data: Bytes)
      requires Valid()
      modifies this
      ensures Valid()
      ensures Of(stream) == ClushRouter.Feed(writers, old(Of(stream)), data)
      ensures forall s: Stream :: s != stream ==> Of(s) == old(Of(s))
    {
      hide Drain;
      pending := pending[stream := pending[stream] + data];
      var more := true;
      while more
        invariant Valid()
        invariant ClushRouter.Feed(writers, old(Of(stream)), data) == if more then Drain(writers, Of(stream))
                  else Of(stream)
        invariant forall s: Stream :: s != stream ==> Of(s) == old(Of(s))
        decreases more, |pending[stream]|
      {
        more := Step(stream);
      }
    }

    /** Deliver what is left of the unfinished lines. */
    method Flush()
      requires Valid()
      modifies this
      ensures Valid()
      ensures forall s: Stream :: Of(s) == ClushRouter.Flush(writers, old(Of(s)))
    {
      hide Deliveries, Target;
      if pending[Stdout] != [] {
        var node := Emit(Stdout, pending[Stdout], active[Stdout].Some?);
        pending := pending[Stdout := []];
      }
      if pending[Stderr] != [] {
        var node := Emit(Stderr, pending[Stderr], active[Stderr].Some?);
        pending := pending[Stderr := []];
      }
      forall s: Stream ensures Of(s) == ClushRouter.Flush(writers, old(Of(s))) { AnyStream(s); }
    }
  }

  lemma AnyStream(s: Stream)
    ensures s == Stdout || s == Stderr
  {
  }

  lemma HasLabelLength(line: Bytes, n: Name)
    requires HasLabel(line, n)
    ensures |n| + 2 <= |line|
  {
  }

  lemma FirstOfToAll(ws: seq<Writer>, seen: set<Group>, line: Bytes)
    requires ws != []
    ensures ToAll(FirstNames(ws, seen), line)
         == if ws[0].group in seen then ToAll(FirstNames(ws[1..], seen), line)
            else [Delivery(ws[0].name, Diagnostic, line)] + ToAll(FirstNames(ws[1..], seen + {ws[0].group}), line)
  {
    if ws[0].group !in seen {
      FirstAndRest(ws[0].name, FirstNames(ws[1..], seen + {ws[0].group}));
    }
  }

  lemma NoneLeft(seen: set<Group>, line: Bytes)
    ensures ToAll(FirstNames([], seen), line) == []
  {
  }

  /** One stream fed chunk by chunk through the object and flushed gets the routed trace. */
  method RouteStream(writers: seq<Writer>, chunks: seq<Bytes>) returns (trace: seq<Delivery>)
    ensures trace == Route(writers, chunks)
  {
    hide Drain, Deliveries;
    var log := new DirectLog(writers);
    assert chunks[0..] == chunks;
    for i := 0 to |chunks|
      invariant log.Valid() && fresh(log) && log.writers == writers
      invariant FeedAll(writers, State([], None, []), chunks) == FeedAll(writers, log.Of(Stdout), chunks[i..])
    {
      assert chunks[i..][1..] == chunks[i + 1..];
      log.Feed(Stdout, chunks[i]);
    }
    log.Flush();
    trace := log.fed[Stdout];
  }
}
