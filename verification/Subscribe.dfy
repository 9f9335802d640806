/** The Subscribe delta stream: name validation, the delta loop, and what a folding client holds. */
module Subscribe {
  import opened Base
  import opened Metrics
  import opened Decode
  import opened KernelRegistry

  datatype Delta = Delta(name: string, value: seq<byte>)

  datatype Response = Response(timestampNs: int, deltas: seq<Delta>, errors: seq<string>)

  datatype Outcome = TooFast(interval: int, minInterval: int) | Streamed(responses: seq<Response>)

  /** What reading the i-th subscribed name answers in the k-th round. */
  type Answers = (nat, nat) -> Result<seq<byte>, string>

  // ---------------------------------------------------------------- names

  /** Why a requested name cannot be subscribed to, if it cannot. */
  function Rejection(known: seq<Info>, name: string): Option<string> {
    match ByName(known, name)
    case None => Some(name + ": unknown metric")
    case Some(info) =>
      if info.valueType == TypeComputed
      then Some(name + ": computed metrics not supported in Subscribe; use GetMetrics")
      else None
  }

  function Rejections(known: seq<Info>, names: seq<string>): seq<string> {
    if names == [] then []
    else
      var n := |names| - 1;
      Rejections(known, names[..n])
      + if Rejection(known, names[n]).Some? then [Rejection(known, names[n]).value] else []
  }

  function Accepted(known: seq<Info>, names: seq<string>): seq<string> {
    if names == [] then []
    else
      var n := |names| - 1;
      Accepted(known, names[..n]) + if Rejection(known, names[n]).Some? then [] else [names[n]]
  }

  /** The last Known entry of `name` exists and satisfies `p`. */
  ghost predicate LastEntry(known: seq<Info>, name: string, p: Info -> bool) {
    exists i :: 0 <= i < |known| && known[i].name == name && p(known[i])
                && forall j :: i < j < |known| ==> known[j].name != name
  }

  lemma LastEntryIsFound(known: seq<Info>, name: string, p: Info -> bool)
    ensures LastEntry(known, name, p) <==> ByName(known, name).Some? && p(ByName(known, name).value)
  {
    ByNameIsLast(known, name);
    if LastEntry(known, name, p) {
      var i :| 0 <= i < |known| && known[i].name == name && p(known[i])
               && forall j :: i < j < |known| ==> known[j].name != name;
      var k :| 0 <= k < |known| && known[k].name == name && ByName(known, name).value == known[k]
               && forall j :: k < j < |known| ==> known[j].name != name;
      assert i == k;
    }
  }

  lemma RejectionsOfOne(known: seq<Info>, name: string)
    ensures Rejections(known, [name]) == match Rejection(known, name) case Some(text) => [text] case None => []
    ensures Accepted(known, [name]) == if Rejection(known, name).None? then [name] else []
  {
    assert [name][..0] == [];
    assert Rejections(known, [name][..0]) == [] && Accepted(known, [name][..0]) == [];
  }

  lemma TextsDiffer(name: string, a: string, b: string)
    requires |a| != |b|
    ensures name + a != name + b
  {
    assert |name + a| != |name + b|;
  }

  lemma RejectionReasons(known: seq<Info>, name: string)
    ensures Rejection(known, name) == Some(name + ": unknown metric") <==>
            forall i :: 0 <= i < |known| ==> known[i].name != name
    ensures Rejection(known, name)
            == Some(name + ": computed metrics not supported in Subscribe; use GetMetrics") <==>
            LastEntry(known, name, (info: Info) => info.valueType == TypeComputed)
    ensures Rejection(known, name) == None <==>
            LastEntry(known, name, (info: Info) => info.valueType != TypeComputed)
  {
    ByNameIsLast(known, name);
    LastEntryIsFound(known, name, (info: Info) => info.valueType == TypeComputed);
    LastEntryIsFound(known, name, (info: Info) => info.valueType != TypeComputed);
    var unknown, computed := ": unknown metric", ": computed metrics not supported in Subscribe; use GetMetrics";
    assert |unknown| < |computed|;
    TextsDiffer(name, unknown, computed);
  }

  /** A requested name alone: an unknown and a computed one are rejected, each with its own text. */
  lemma RejectionTexts(known: seq<Info>, name: string)
    ensures Rejections(known, [name]) == [name + ": unknown metric"] <==>
            forall i :: 0 <= i < |known| ==> known[i].name != name
    ensures Rejections(known, [name])
            == [name + ": computed metrics not supported in Subscribe; use GetMetrics"] <==>
            LastEntry(known, name, (info: Info) => info.valueType == TypeComputed)
    ensures Rejections(known, [name]) == [] <==>
            LastEntry(known, name, (info: Info) => info.valueType != TypeComputed)
    ensures Accepted(known, [name]) == if Rejections(known, [name]) == [] then [name] else []
  {
    RejectionReasons(known, name);
    RejectionsOfOne(known, name);
    OneText(Rejections(known, [name]), Rejection(known, name), name + ": unknown metric");
    OneText(Rejections(known, [name]), Rejection(known, name),
            name + ": computed metrics not supported in Subscribe; use GetMetrics");
  }

  lemma OneText(texts: seq<string>, reason: Option<string>, text: string)
    requires texts == match reason case Some(t) => [t] case None => []
    ensures texts == [text] <==> reason == Some(text)
    ensures texts == [] <==> reason == None
  {
  }

  /** Names are judged one by one, in request order. */
  lemma {:induction false} NamesAreJudgedInOrder(known: seq<Info>, a: seq<string>, b: seq<string>)
    ensures Rejections(known, a + b) == Rejections(known, a) + Rejections(known, b)
    ensures Accepted(known, a + b) == Accepted(known, a) + Accepted(known, b)
  {
    if b == [] {
      assert a + b == a;
    } else {
      assert (a + b)[..|a + b| - 1] == a + b[..|b| - 1];
      NamesAreJudgedInOrder(known, a, b[..|b| - 1]);
    }
  }

  lemma {:induction false} EveryNameIsSorted(known: seq<Info>, names: seq<string>)
    ensures |Rejections(known, names)| + |Accepted(known, names)| == |names|
  {
    if names != [] { EveryNameIsSorted(known, names[..|names| - 1]); }
  }

  /** The accepted names are the requested ones whose last registry entry exists and is not computed. */
  lemma {:induction false} AcceptedAreReadable(known: seq<Info>, names: seq<string>, name: string)
    ensures name in Accepted(known, names) <==>
            && name in names
            && exists i :: 0 <= i < |known| && known[i].name == name && known[i].valueType != TypeComputed
                           && forall j :: i < j < |known| ==> known[j].name != name
  {
    if names != [] {
      var n := |names| - 1;
      AcceptedAreReadable(known, names[..n], name);
      assert name in names <==> name in names[..n] || name == names[n];
      ByNameIsLast(known, name);
    }
  }

  // ---------------------------------------------------------------- the readings of a round

  /** The successful reads among the first `n` positions of round `k`, in order. */
  function Successes(valid: seq<string>, answers: Answers, k: nat, n: nat): seq<Delta>
    requires n <= |valid|
  {
    if n == 0 then []
    else
      Successes(valid, answers, k, n - 1)
      + match answers(k, n - 1) case Ok(raw) => [Delta(valid[n - 1], raw)] case Err(_) => []
  }

  function Failures(valid: seq<string>, answers: Answers, k: nat, n: nat): seq<string>
    requires n <= |valid|
  {
    if n == 0 then []
    else
      Failures(valid, answers, k, n - 1)
      + match answers(k, n - 1) case Ok(_) => [] case Err(message) => [valid[n - 1] + ": " + message]
  }

  lemma {:induction false} EveryReadIsSorted(valid: seq<string>, answers: Answers, k: nat, n: nat)
    requires n <= |valid|
    ensures |Successes(valid, answers, k, n)| + |Failures(valid, answers, k, n)| == n
  {
    if n > 0 { EveryReadIsSorted(valid, answers, k, n - 1); }
  }

  /** Each position leaves one trace, behind those of the earlier positions: its value, or its name and its error. */
  lemma {:induction false} ReadsInOrder(valid: seq<string>, answers: Answers, k: nat, n: nat, i: nat)
    requires i < n <= |valid|
    ensures var read, failed := Successes(valid, answers, k, n), Failures(valid, answers, k, n);
            var s, f := |Successes(valid, answers, k, i)|, |Failures(valid, answers, k, i)|;
            match answers(k, i)
            case Ok(raw) => s < |read| && read[s] == Delta(valid[i], raw)
            case Err(message) => f < |failed| && failed[f] == valid[i] + ": " + message
  {
    if i < n - 1 { ReadsInOrder(valid, answers, k, n - 1, i); }
  }

  /** All successful reads of the first `rounds` rounds, in the order they happen. */
  function AllReads(valid: seq<string>, answers: Answers, rounds: nat): seq<Delta> {
    if rounds == 0 then []
    else AllReads(valid, answers, rounds - 1) + Successes(valid, answers, rounds - 1, |valid|)
  }

  function AllDeltas(responses: seq<Response>): seq<Delta> {
    if responses == [] then []
    else AllDeltas(responses[..|responses| - 1]) + responses[|responses| - 1].deltas
  }

  // ---------------------------------------------------------------- holding and sending

  /** The bytes held for a name; a name never written holds the empty string. */
  function Held(store: map<string, seq<byte>>, name: string): seq<byte> {
    if name in store then store[name] else []
  }

  /** A server's position in a stream: the deltas sent and the bytes remembered for each name. */
  datatype Channel = Channel(sent: seq<Delta>, prev: map<string, seq<byte>>)

  /** One successful read: sent and remembered if it differs from what is remembered. */
  function Push(c: Channel, event: Delta): Channel {
    if Held(c.prev, event.name) == event.value then c
    else Channel(c.sent + [event], c.prev[event.name := event.value])
  }

  function Transmit(c: Channel, events: seq<Delta>): Channel {
    if events == [] then c
    else Push(Transmit(c, events[..|events| - 1]), events[|events| - 1])
  }

  const OPENING: Channel := Channel([], map[])

  /** How many reads find their own value remembered. */
  function Matched(c: Channel, events: seq<Delta>): nat {
    if events == [] then 0
    else
      var n := |events| - 1;
      Matched(c, events[..n])
      + if Held(Transmit(c, events[..n]).prev, events[n].name) == events[n].value then 1 else 0
  }

  lemma {:induction false} EveryReadIsSentOrMatched(c: Channel, events: seq<Delta>)
    ensures |Transmit(c, events).sent| + Matched(c, events) == |c.sent| + |events|
  {
    if events != [] { EveryReadIsSentOrMatched(c, events[..|events| - 1]); }
  }

  lemma TransmitSnoc(c: Channel, events: seq<Delta>, last: Delta)
    ensures Transmit(c, events + [last]) == Push(Transmit(c, events), last)
  {
    assert (events + [last])[..|events|] == events;
  }

  lemma {:induction false} TransmitConcat(c: Channel, a: seq<Delta>, b: seq<Delta>)
    ensures Transmit(c, a + b) == Transmit(Transmit(c, a), b)
  {
    if b == [] {
      assert a + b == a;
    } else {
      assert (a + b)[..|a + b| - 1] == a + b[..|b| - 1];
      TransmitConcat(c, a, b[..|b| - 1]);
    }
  }

  /** What was sent before a round only stands in front of what the round sends. */
  lemma {:induction false} TransmitFrame(front: seq<Delta>, prev: map<string, seq<byte>>, events: seq<Delta>)
    ensures Transmit(Channel(front, prev), events).prev == Transmit(Channel([], prev), events).prev
    ensures Transmit(Channel(front, prev), events).sent == front + Transmit(Channel([], prev), events).sent
  {
    if events != [] { TransmitFrame(front, prev, events[..|events| - 1]); }
  }

  // ---------------------------------------------------------------- the stream

  /** Sorting the requested names. */
  method ValidateNames(known: seq<Info>, names: seq<string>) returns (errors: seq<string>, validNames: seq<string>)
    ensures errors == Rejections(known, names) && validNames == Accepted(known, names)
  {
    var index := IndexByName(known);
    errors, validNames := [], [];
    for i := 0 to |names|
      invariant errors == Rejections(known, names[..i]) && validNames == Accepted(known, names[..i])
    {
      var name := names[i];
      assert names[..i + 1][..i] == names[..i];
      if name !in index {
        errors := errors + [name + ": unknown metric"];
        continue;
      }
      if index[name].valueType == TypeComputed {
        errors := errors + [name + ": computed metrics not supported in Subscribe; use GetMetrics"];
        continue;
      }
      validNames := validNames + [name];
    }
    assert names[..|names|] == names;
  }

  /** The server in the middle of round `k`, `n` names read, having begun it remembering `prev`. */
  function RoundState(prev: map<string, seq<byte>>, valid: seq<string>, answers: Answers, k: nat, n: nat): Channel
    requires n <= |valid|
  {
    if n == 0 then Channel([], prev)
    else
      var before := RoundState(prev, valid, answers, k, n - 1);
      match answers(k, n - 1)
      case Ok(raw) => Push(before, Delta(valid[n - 1], raw))
      case Err(_) => before
  }

  /** What the server remembers when round `k` begins. */
  function Remembered(valid: seq<string>, answers: Answers, k: nat): map<string, seq<byte>> {
    if k == 0 then map[]
    else RoundState(Remembered(valid, answers, k - 1), valid, answers, k - 1, |valid|).prev
  }

  function RoundDeltas(valid: seq<string>, answers: Answers, k: nat): seq<Delta> {
    RoundState(Remembered(valid, answers, k), valid, answers, k, |valid|).sent
  }

  /** One round: read every name, keep what changed, remember it. */
  method Round(valid: seq<string>, answers: Answers, k: nat, before: map<string, seq<byte>>, first: bool,
               rejected: seq<string>)
    returns (deltas: seq<Delta>, prev: map<string, seq<byte>>, errors: seq<string>)
    ensures Channel(deltas, prev) == RoundState(before, valid, answers, k, |valid|)
    ensures errors == rejected + if first then Failures(valid, answers, k, |valid|) else []
  {
    deltas, prev, errors := [], before, rejected;
    ghost var failed: seq<string> := [];
    for i := 0 to |valid|
      invariant Channel(deltas, prev) == RoundState(before, valid, answers, k, i)
      invariant failed == if first then Failures(valid, answers, k, i) else []
      invariant errors == rejected + failed
    {
      var name := valid[i];
      match answers(k, i) {
        case Err(message) =>
          assert RoundState(before, valid, answers, k, i + 1) == RoundState(before, valid, answers, k, i);
          if first {
            var text := name + ": " + message;
            assert Failures(valid, answers, k, i + 1) == failed + [text];
            errors, failed := errors + [text], failed + [text];
          }
        case Ok(raw) =>
          assert RoundState(before, valid, answers, k, i + 1) == Push(Channel(deltas, prev), Delta(name, raw));
          assert Failures(valid, answers, k, i + 1) == Failures(valid, answers, k, i);
          if (if name in prev then prev[name] else []) != raw {
            deltas := deltas + [Delta(name, raw)];
            prev := prev[name := raw];
          }
      }
    }
  }

  /** Response k carries the reads of round k that changed what the server remembers after the rounds before it. */
  ghost predicate CarriesChanges(valid: seq<string>, answers: Answers, responses: seq<Response>) {
    forall k {:trigger responses[k]} :: 0 <= k < |responses| ==>
                                          responses[k].deltas == RoundDeltas(valid, answers, k)
  }

  /** The first response lists the rejected names, then the failed reads; no later one lists anything. */
  ghost predicate CarriesErrors(valid: seq<string>, answers: Answers, rejected: seq<string>, responses: seq<Response>) {
    forall k :: 0 <= k < |responses| ==>
                  responses[k].errors == if k == 0 then rejected + Failures(valid, answers, 0, |valid|) else []
  }

  lemma {:induction false} RoundIsTransmission(prev: map<string, seq<byte>>, valid: seq<string>, answers: Answers,
                                               k: nat, n: nat)
    requires n <= |valid|
    ensures RoundState(prev, valid, answers, k, n) == Transmit(Channel([], prev), Successes(valid, answers, k, n))
  {
    if n > 0 {
      RoundIsTransmission(prev, valid, answers, k, n - 1);
      match answers(k, n - 1) {
        case Ok(raw) =>
          var before, event := Successes(valid, answers, k, n - 1), Delta(valid[n - 1], raw);
          assert Successes(valid, answers, k, n) == before + [event];
          TransmitSnoc(Channel([], prev), before, event);
        case Err(_) =>
          assert Successes(valid, answers, k, n) == Successes(valid, answers, k, n - 1);
      }
    }
  }

  lemma RoundEnds(valid: seq<string>, answers: Answers, k: nat)
    ensures var c := Transmit(OPENING, AllReads(valid, answers, k));
            var r := RoundState(c.prev, valid, answers, k, |valid|);
            Transmit(OPENING, AllReads(valid, answers, k + 1)) == Channel(c.sent + r.sent, r.prev)
  {
    var c, events := Transmit(OPENING, AllReads(valid, answers, k)), Successes(valid, answers, k, |valid|);
    TransmitConcat(OPENING, AllReads(valid, answers, k), events);
    TransmitFrame(c.sent, c.prev, events);
    RoundIsTransmission(c.prev, valid, answers, k, |valid|);
  }

  /** Rounds transmit on from where the rounds before them left the server. */
  lemma {:induction false} RoundsAreTransmission(valid: seq<string>, answers: Answers, k: nat)
    ensures Transmit(OPENING, AllReads(valid, answers, k)).prev == Remembered(valid, answers, k)
  {
    if k > 0 {
      var m: nat, was := k - 1, Remembered(valid, answers, k - 1);
      assert Transmit(OPENING, AllReads(valid, answers, m)).prev == was by {
        RoundsAreTransmission(valid, answers, m);
      }
      assert Transmit(OPENING, AllReads(valid, answers, k)).prev
             == RoundState(was, valid, answers, m, |valid|).prev by {
        RoundEnds(valid, answers, m);
      }
    }
  }

  lemma AllDeltasStep(responses: seq<Response>, k: nat)
    requires 0 < k <= |responses|
    ensures AllDeltas(responses[..k]) == AllDeltas(responses[..k - 1]) + responses[k - 1].deltas
  {
    assert responses[..k][..k - 1] == responses[..k - 1];
    assert responses[..k][k - 1] == responses[k - 1];
  }

  /** The deltas of the first k responses are exactly the reads of k rounds that changed what is remembered. */
  lemma {:induction false} StreamIsTransmission(valid: seq<string>, answers: Answers, responses: seq<Response>, k: nat)
    requires k <= |responses| && CarriesChanges(valid, answers, responses)
    ensures AllDeltas(responses[..k]) == Transmit(OPENING, AllReads(valid, answers, k)).sent
  {
    if k == 0 {
      assert AllReads(valid, answers, 0) == [];
    } else {
      StreamIsTransmission(valid, answers, responses, k - 1);
      RoundsAreTransmission(valid, answers, k - 1);
      RoundEnds(valid, answers, k - 1);
      AllDeltasStep(responses, k);
    }
  }

  /** The send loop, up to the point where the client leaves after `rounds` responses. */
  method Stream(valid: seq<string>, rejected: seq<string>, rounds: nat, clock: nat -> int, answers: Answers)
    returns (responses: seq<Response>)
    ensures |responses| == rounds
    ensures CarriesChanges(valid, answers, responses) && CarriesErrors(valid, answers, rejected, responses)
    ensures forall k :: 0 <= k < rounds ==> responses[k].timestampNs == clock(k)
  {
    var errors := rejected;
    var prev: map<string, seq<byte>> := map[];
    var first := true;
    responses := [];
    for k := 0 to rounds
      invariant |responses| == k && first == (k == 0) && (first ==> errors == rejected)
      invariant CarriesChanges(valid, answers, responses)
      invariant CarriesErrors(valid, answers, rejected, responses)
      invariant prev == Remembered(valid, answers, k)
      invariant forall j :: 0 <= j < k ==> responses[j].timestampNs == clock(j)
    {
      var deltas;
      deltas, prev, errors := Round(valid, answers, k, prev, first, errors);
      var resp := Response(clock(k), deltas, []);
      if first {
        resp := resp.(errors := errors);
        first := false;
      }
      responses := responses + [resp];
    }
  }

  /**
   * Subscribe. Together the responses carry exactly the reads that changed what the client holds; the first
   * one lists the rejected names and then the failed reads, and every requested name is accounted for in it.
   */
  method Subscribe(known: seq<Info>, metrics: seq<KernelMetric>, names: seq<string>, intervalNs: int,
                   rounds: nat, clock: nat -> int, answers: Answers)
    returns (minInterval: int, out: Outcome)
    requires rounds > 0
    ensures FastestInterval(metrics, minInterval)
    ensures out.TooFast? <==> 0 < intervalNs < minInterval
    ensures out.TooFast? ==> out == TooFast(intervalNs, minInterval)
    ensures out.Streamed? ==>
              var valid, responses := Accepted(known, names), out.responses;
              && |responses| == rounds
              && CarriesChanges(valid, answers, responses)
              && CarriesErrors(valid, answers, Rejections(known, names), responses)
              && responses[0].errors == Rejections(known, names) + Failures(valid, answers, 0, |valid|)
              && (forall k :: 0 < k < rounds ==> responses[k].errors == [])
              && (forall k :: 0 <= k < rounds ==> responses[k].timestampNs == clock(k))
              && |names| == |responses[0].errors| + |responses[0].deltas|
                            + Matched(OPENING, Successes(valid, answers, 0, |valid|))
  {
    minInterval := MinSubscribeInterval(metrics);
    var interval := intervalNs;
    if interval <= 0 {
      interval := minInterval;
    }
    if interval < minInterval {
      return minInterval, TooFast(interval, minInterval);
    }
    var errors, validNames := ValidateNames(known, names);
    var responses := Stream(validNames, errors, rounds, clock, answers);
    FirstResponse(validNames, answers, errors, responses);
    EveryNameIsSorted(known, names);
    out := Streamed(responses);
  }

  /** Every subscribed name of the first round is a delta, a match or a failure. */
  lemma FirstResponse(valid: seq<string>, answers: Answers, rejected: seq<string>, responses: seq<Response>)
    requires responses != []
    requires CarriesChanges(valid, answers, responses) && CarriesErrors(valid, answers, rejected, responses)
    ensures |responses[0].errors| - |rejected| + |responses[0].deltas|
            + Matched(OPENING, Successes(valid, answers, 0, |valid|)) == |valid|
  {
    EveryReadIsSorted(valid, answers, 0, |valid|);
    EveryReadIsSentOrMatched(OPENING, Successes(valid, answers, 0, |valid|));
    RoundIsTransmission(map[], valid, answers, 0, |valid|);
    assert AllReads(valid, answers, 0) == [];
  }

  // ---------------------------------------------------------------- the client's view

  /** The values of one name, in order. */
  function Project(name: string, events: seq<Delta>): seq<seq<byte>> {
    if events == [] then []
    else
      var n := |events| - 1;
      Project(name, events[..n]) + if events[n].name == name then [events[n].value] else []
  }

  function LastOr<T>(start: T, values: seq<T>): T {
    if values == [] then start else values[|values| - 1]
  }

  /** `values` without the elements that repeat the one before them, `start` coming before the first. */
  function Destutter<T(==)>(start: T, values: seq<T>): seq<T> {
    if values == [] then []
    else if values[0] == start then Destutter(start, values[1..])
    else [values[0]] + Destutter(values[0], values[1..])
  }

  lemma {:induction false} DestutterSnoc<T>(start: T, values: seq<T>, last: T)
    ensures Destutter(start, values + [last]) ==
            Destutter(start, values) + if LastOr(start, values) == last then [] else [last]
  {
    if values == [] {
      assert values + [last] == [last];
    } else {
      assert (values + [last])[1..] == values[1..] + [last];
      DestutterSnoc(values[0], values[1..], last);
    }
  }

  /** A client folding deltas into what it holds. */
  function Fold(store: map<string, seq<byte>>, deltas: seq<Delta>): map<string, seq<byte>> {
    if deltas == [] then store
    else
      var n := |deltas| - 1;
      Fold(store, deltas[..n])[deltas[n].name := deltas[n].value]
  }

  lemma FoldSnoc(store: map<string, seq<byte>>, deltas: seq<Delta>, last: Delta)
    ensures Fold(store, deltas + [last]) == Fold(store, deltas)[last.name := last.value]
  {
    assert (deltas + [last])[..|deltas|] == deltas;
  }

  /** What a name holds after folding a list of readings is its last reading. */
  lemma {:induction false} FoldHoldsLast(store: map<string, seq<byte>>, deltas: seq<Delta>, name: string)
    ensures Held(Fold(store, deltas), name) == LastOr(Held(store, name), Project(name, deltas))
  {
    if deltas != [] { FoldHoldsLast(store, deltas[..|deltas| - 1], name); }
  }

  /** The client folding the deltas and the server stay in step. */
  lemma {:induction false} ClientTracksServer(events: seq<Delta>)
    ensures Fold(map[], Transmit(OPENING, events).sent) == Transmit(OPENING, events).prev
  {
    if events != [] {
      var n := |events| - 1;
      var c := Transmit(OPENING, events[..n]);
      ClientTracksServer(events[..n]);
      FoldSnoc(map[], c.sent, events[n]);
    }
  }

  lemma {:induction false} ServerHoldsLast(events: seq<Delta>, name: string)
    ensures Held(Transmit(OPENING, events).prev, name) == LastOr([], Project(name, events))
  {
    if events != [] { ServerHoldsLast(events[..|events| - 1], name); }
  }

  /**
   * After any number of rounds, a client folding the deltas holds for every name its last successful read
   * (empty if none): the same as a client that is sent every successful read in full.
   */
  lemma DeltasRefineSnapshots(events: seq<Delta>, name: string)
    ensures Held(Fold(map[], Transmit(OPENING, events).sent), name) == LastOr([], Project(name, events))
    ensures Held(Fold(map[], Transmit(OPENING, events).sent), name) == Held(Fold(map[], events), name)
  {
    ClientTracksServer(events);
    ServerHoldsLast(events, name);
    FoldHoldsLast(map[], events, name);
  }

  lemma ProjectSnoc(name: string, events: seq<Delta>, last: Delta)
    ensures Project(name, events + [last]) == Project(name, events) + if last.name == name then [last.value] else []
  {
    assert (events + [last])[..|events|] == events;
  }

  /** For every name the values sent are its successful reads with repetitions removed, starting from empty. */
  lemma {:induction false} SentIsDestuttered(events: seq<Delta>, name: string)
    ensures Project(name, Transmit(OPENING, events).sent) == Destutter([], Project(name, events))
  {
    if events != [] {
      var n := |events| - 1;
      var c := Transmit(OPENING, events[..n]);
      SentIsDestuttered(events[..n], name);
      ServerHoldsLast(events[..n], events[n].name);
      ProjectSnoc(name, c.sent, events[n]);
      if events[n].name == name {
        DestutterSnoc([], Project(name, events[..n]), events[n].value);
        assert Project(name, events) == Project(name, events[..n]) + [events[n].value];
      } else {
        assert Project(name, events) == Project(name, events[..n]);
      }
    }
  }

  /** What a subscriber sees of a stream: after every response it holds each name's last successful read so far. */
  lemma SubscriberHoldsLastReads(valid: seq<string>, answers: Answers, responses: seq<Response>, k: nat, name: string)
    requires k <= |responses| && CarriesChanges(valid, answers, responses)
    ensures Held(Fold(map[], AllDeltas(responses[..k])), name) == LastOr([], Project(name, AllReads(valid, answers, k)))
    ensures Project(name, AllDeltas(responses[..k])) == Destutter([], Project(name, AllReads(valid, answers, k)))
  {
    StreamIsTransmission(valid, answers, responses, k);
    DeltasRefineSnapshots(AllReads(valid, answers, k), name);
    SentIsDestuttered(AllReads(valid, answers, k), name);
  }

  /** No delta repeats what the client already holds when it arrives. */
  lemma {:induction false} NoRedundantDelta(events: seq<Delta>, i: nat)
    requires i < |Transmit(OPENING, events).sent|
    ensures var sent := Transmit(OPENING, events).sent;
            sent[i].value != Held(Fold(map[], sent[..i]), sent[i].name)
  {
    var n := |events| - 1;
    var earlier := Transmit(OPENING, events[..n]).sent;
    var sent := Transmit(OPENING, events).sent;
    if i < |earlier| {
      NoRedundantDelta(events[..n], i);
      assert sent[..i] == earlier[..i];
    } else {
      assert sent[..i] == earlier;
      ClientTracksServer(events[..n]);
    }
  }

  function Flatten<T>(batches: seq<seq<T>>): seq<T> {
    if batches == [] then [] else Flatten(batches[..|batches| - 1]) + batches[|batches| - 1]
  }

  /**
   * No stream is shorter: any updates that leave the client holding each value of a name right after
   * that value was read are at least as many as the ones Subscribe sends.
   */
  lemma {:induction false} DestutterIsShortest<T>(start: T, values: seq<T>, updates: seq<seq<T>>)
    requires |updates| == |values|
    requires forall i :: 0 <= i < |values| ==> LastOr(start, Flatten(updates[..i + 1])) == values[i]
    ensures |Flatten(updates)| >= |Destutter(start, values)|
  {
    if values != [] {
      var n := |values| - 1;
      assert values == values[..n] + [values[n]];
      assert updates[..n + 1] == updates;
      forall i | 0 <= i < n ensures LastOr(start, Flatten(updates[..n][..i + 1])) == values[..n][i] {
        assert updates[..n][..i + 1] == updates[..i + 1];
      }
      DestutterIsShortest(start, values[..n], updates[..n]);
      DestutterSnoc(start, values[..n], values[n]);
      if n > 0 {
        assert LastOr(start, Flatten(updates[..n - 1 + 1])) == values[n - 1];
      } else {
        assert updates[..n] == [];
      }
    }
  }

  // ---------------------------------------------------------------- no stream of many names is shorter

  function NamesOf(deltas: seq<Delta>): seq<string> {
    if deltas == [] then [] else NamesOf(deltas[..|deltas| - 1]) + [deltas[|deltas| - 1].name]
  }

  /** A name occurs as often as it has values. */
  lemma {:induction false} ProjectCounts(name: string, deltas: seq<Delta>)
    ensures multiset(NamesOf(deltas))[name] == |Project(name, deltas)|
    ensures |NamesOf(deltas)| == |deltas|
  {
    if deltas != [] { ProjectCounts(name, deltas[..|deltas| - 1]); }
  }

  /** A stream in which every name occurs at least as often is at least as long. */
  lemma LengthByName(a: seq<Delta>, b: seq<Delta>)
    requires multiset(NamesOf(a)) <= multiset(NamesOf(b))
    ensures |a| <= |b|
  {
    SubmultisetIsSmaller(multiset(NamesOf(a)), multiset(NamesOf(b)));
    ProjectCounts("", a);
    ProjectCounts("", b);
  }

  lemma SubmultisetIsSmaller<T>(m: multiset<T>, n: multiset<T>)
    requires m <= n
    ensures |m| <= |n|
  {
    assert m + (n - m) == n;
  }

  /** `updates[i]`, sent up to read i, leaves a client holding for the name just read what was read. */
  ghost predicate KeepsExact(events: seq<Delta>, updates: seq<seq<Delta>>) {
    && |updates| == |events|
    && forall i :: 0 <= i < |events| ==>
                     Held(Fold(map[], Flatten(updates[..i + 1])), events[i].name) == events[i].value
  }

  lemma {:induction false} ProjectConcat(name: string, a: seq<Delta>, b: seq<Delta>)
    ensures Project(name, a + b) == Project(name, a) + Project(name, b)
  {
    if b == [] {
      assert a + b == a;
    } else {
      assert (a + b)[..|a + b| - 1] == a + b[..|b| - 1];
      ProjectConcat(name, a, b[..|b| - 1]);
    }
  }

  /**
   * One name of an exact stream: it has at least the values that Subscribe sends, and one more if it currently
   * leaves the client with anything but the last read.
   */
  lemma {:induction false} ExactSendsAsMuch(name: string, events: seq<Delta>, updates: seq<seq<Delta>>)
    requires KeepsExact(events, updates)
    ensures var mine, sent := Project(name, Flatten(updates)), Destutter([], Project(name, events));
            |sent| + (if LastOr([], mine) == LastOr([], Project(name, events)) then 0 else 1) <= |mine|
  {
    if events != [] {
      var n := |events| - 1;
      var before, last := Flatten(updates[..n]), updates[n];
      assert updates[..n + 1] == updates;
      forall i | 0 <= i < n
        ensures Held(Fold(map[], Flatten(updates[..n][..i + 1])), events[..n][i].name) == events[..n][i].value
      {
        assert updates[..n][..i + 1] == updates[..i + 1];
      }
      ExactSendsAsMuch(name, events[..n], updates[..n]);
      ProjectConcat(name, before, last);
      FoldHoldsLast(map[], Flatten(updates), name);
      var mine, got := Project(name, Flatten(updates)), Project(name, events);
      assert Project(name, last) == [] ==> mine == Project(name, before);
      if events[n].name == name {
        DestutterSnoc([], Project(name, events[..n]), events[n].value);
        assert got == Project(name, events[..n]) + [events[n].value];
        assert LastOr([], mine) == events[n].value;
      } else {
        assert got == Project(name, events[..n]);
      }
    }
  }

  /**
   * Subscribe's stream is the shortest: any deltas that leave a client exact for each name right after it was
   * read, over all names and all rounds, are at least as many as the responses carry.
   */
  lemma StreamIsShortest(valid: seq<string>, answers: Answers, responses: seq<Response>, k: nat,
                         updates: seq<seq<Delta>>)
    requires k <= |responses| && CarriesChanges(valid, answers, responses)
    requires KeepsExact(AllReads(valid, answers, k), updates)
    ensures |AllDeltas(responses[..k])| <= |Flatten(updates)|
  {
    var sent, other := AllDeltas(responses[..k]), Flatten(updates);
    forall name ensures multiset(NamesOf(sent))[name] <= multiset(NamesOf(other))[name] {
      SubscriberHoldsLastReads(valid, answers, responses, k, name);
      ExactSendsAsMuch(name, AllReads(valid, answers, k), updates);
      ProjectCounts(name, sent);
      ProjectCounts(name, other);
    }
    LengthByName(sent, other);
  }

  /** What Subscribe sends for read `i`. */
  function SentAt(events: seq<Delta>, i: nat): seq<Delta>
    requires i < |events|
  {
    if Held(Transmit(OPENING, events[..i]).prev, events[i].name) == events[i].value then [] else [events[i]]
  }

  function OwnUpdates(events: seq<Delta>): seq<seq<Delta>> {
    seq(|events|, i requires 0 <= i < |events| => SentAt(events, i))
  }

  lemma {:induction false} OwnUpdatesAreSent(events: seq<Delta>, n: nat)
    requires n <= |events|
    ensures Flatten(OwnUpdates(events)[..n]) == Transmit(OPENING, events[..n]).sent
  {
    if n > 0 {
      OwnUpdatesAreSent(events, n - 1);
      assert OwnUpdates(events)[..n][..n - 1] == OwnUpdates(events)[..n - 1];
      assert OwnUpdates(events)[..n][n - 1] == SentAt(events, n - 1);
      assert events[..n] == events[..n - 1] + [events[n - 1]];
      TransmitSnoc(OPENING, events[..n - 1], events[n - 1]);
    }
  }

  lemma OwnUpdateIsExact(events: seq<Delta>, i: nat)
    requires i < |events|
    ensures Held(Fold(map[], Flatten(OwnUpdates(events)[..i + 1])), events[i].name) == events[i].value
  {
    var upto, after := events[..i + 1], Push(Transmit(OPENING, events[..i]), events[i]);
    assert Transmit(OPENING, upto) == after by {
      assert upto == events[..i] + [events[i]];
      TransmitSnoc(OPENING, events[..i], events[i]);
    }
    assert Fold(map[], after.sent) == after.prev by { ClientTracksServer(upto); }
    assert Flatten(OwnUpdates(events)[..i + 1]) == after.sent by { OwnUpdatesAreSent(events, i + 1); }
  }

  /** The bound is attained: what Subscribe sends is itself an exact stream. */
  lemma OwnUpdatesAreExact(events: seq<Delta>)
    ensures KeepsExact(events, OwnUpdates(events))
    ensures Flatten(OwnUpdates(events)) == Transmit(OPENING, events).sent
  {
    forall i | 0 <= i < |events|
      ensures Held(Fold(map[], Flatten(OwnUpdates(events)[..i + 1])), events[i].name) == events[i].value
    {
      OwnUpdateIsExact(events, i);
    }
    OwnUpdatesAreSent(events, |events|);
    assert OwnUpdates(events)[..|events|] == OwnUpdates(events) && events[..|events|] == events;
  }

  // ---------------------------------------------------------------- typed changes

  function DecodeAll(t: ValueType, values: seq<seq<byte>>): seq<Decoded>
    requires forall v :: v in values ==> Width(t) == Some(|v|)
  {
    if values == [] then [] else [DecodeAs(t, values[0])] + DecodeAll(t, values[1..])
  }

  lemma {:induction false} DestutterKeepsMembers<T>(start: T, values: seq<T>)
    ensures forall v :: v in Destutter(start, values) ==> v in values
  {
    if values != [] { DestutterKeepsMembers(values[0], values[1..]); }
  }

  /** Comparing raw bytes finds exactly the changes of the decoded value: none missed, none invented. */
  lemma {:induction false} ByteComparisonIsTyped(t: ValueType, start: seq<byte>, values: seq<seq<byte>>)
    requires t != TypeLoadavg && Width(t) == Some(|start|)
    requires forall v :: v in values ==> Width(t) == Some(|v|)
    ensures forall v :: v in Destutter(start, values) ==> Width(t) == Some(|v|)
    ensures DecodeAll(t, Destutter(start, values)) == Destutter(DecodeAs(t, start), DecodeAll(t, values))
    decreases |values|
  {
    DestutterKeepsMembers(start, values);
    if values != [] {
      assert values[0] in values;
      RawChangeIsDecodedChange(t, values[0], start);
      assert values[0] == start || Destutter(start, values)[1..] == Destutter(values[0], values[1..]);
      ByteComparisonIsTyped(t, values[0], values[1..]);
      assert DecodeAll(t, values)[1..] == DecodeAll(t, values[1..]);
    }
  }

  /**
   * A stream opens with nothing remembered, so its first full-width read is always sent; from then on the values
   * sent decode to exactly the decoded values that changed.
   */
  lemma OpeningIsTyped(t: ValueType, values: seq<seq<byte>>)
    requires t != TypeLoadavg && Width(t).Some? && values != []
    requires forall v :: v in values ==> Width(t) == Some(|v|)
    ensures forall v :: v in Destutter([], values) ==> Width(t) == Some(|v|)
    ensures DecodeAll(t, Destutter([], values)) ==
            [DecodeAs(t, values[0])] + Destutter(DecodeAs(t, values[0]), DecodeAll(t, values[1..]))
  {
    assert values[0] in values && values[0] != [];
    ByteComparisonIsTyped(t, values[0], values[1..]);
    assert Destutter([], values)[1..] == Destutter(values[0], values[1..]);
  }

  /** What a subscriber to a fixed-width metric decodes: the first value and then every change of the value. */
  lemma SubscriberSeesTypedChanges(valid: seq<string>, answers: Answers, responses: seq<Response>, k: nat,
                                   name: string, t: ValueType)
    requires k <= |responses| && CarriesChanges(valid, answers, responses)
    requires t != TypeLoadavg && Width(t).Some? && Project(name, AllReads(valid, answers, k)) != []
    requires forall v :: v in Project(name, AllReads(valid, answers, k)) ==> Width(t) == Some(|v|)
    ensures var got, sent := Project(name, AllReads(valid, answers, k)), Project(name, AllDeltas(responses[..k]));
            && (forall v :: v in sent ==> Width(t) == Some(|v|))
            && DecodeAll(t, sent) == [DecodeAs(t, got[0])] + Destutter(DecodeAs(t, got[0]), DecodeAll(t, got[1..]))
  {
    SubscriberHoldsLastReads(valid, answers, responses, k, name);
    OpeningIsTyped(t, Project(name, AllReads(valid, answers, k)));
  }
}
