/** The pet's care-request state machine as pure transitions over a snapshot of
    the pet's fields, the invariant every reachable snapshot keeps, and
    properties of whole runs of timer firings and answers. */
module PetMachine {
  import opened Requests

  /** After this many ignored requests a healthy pet falls ill. */
  const MaxIgnored := 3

  datatype Status = Healthy | Sick | Dead

  /** What the pet's observers receive. `Reply` is the acknowledgment written to
      the console when a healthy pet's request is satisfied; the other three are
      the source's events of the same names. */
  datatype Notification =
    | ThisRequest(message: string)
    | StatusChanged(message: string)
    | Death(message: string)
    | Reply(message: string)

  /** The pet's fields; the two timers are reduced to whether they are running. */
  datatype PetState = PetState(
    name: string,
    status: Status,
    ignorCount: int,
    currentRequest: int,
    previousRequest: int,
    hasPreviousRequest: bool,
    waitingForAnswer: bool,
    requestTimerOn: bool,
    lifeTimerOn: bool)

  /** The state after a handler, and the notifications it sent, in order. */
  datatype Transition = Transition(next: PetState, emitted: seq<Notification>)

  /** Number of Death notifications in a log. */
  function Deaths(log: seq<Notification>): (n: nat)
    ensures n <= |log|
    ensures n == 0 <==> forall i :: 0 <= i < |log| ==> !log[i].Death?
  {
    if log == [] then 0
    else (if log[0].Death? then 1 else 0) + Deaths(log[1..])
  }

  lemma {:induction false} DeathsAppend(a: seq<Notification>, b: seq<Notification>)
    ensures Deaths(a + b) == Deaths(a) + Deaths(b)
    decreases |a|
  {
    if a != [] {
      assert a + b != [] && (a + b)[0] == a[0];
      assert (a + b)[1..] == a[1..] + b;
      DeathsAppend(a[1..], b);
    } else {
      assert a + b == b;
    }
  }

  /** The invariant of every state the pet can reach: kinds are in range, the
      ignore counter never passes MaxIgnored + 1, a healthy pet is below the
      threshold, a sick pet is exactly at it with its Heal request outstanding,
      and a dead pet has both timers stopped. */
  predicate Inv(s: PetState) {
    (s.hasPreviousRequest ==> IsKind(s.previousRequest)) &&
    (!s.hasPreviousRequest ==> s.previousRequest == -1) &&
    IsKind(s.currentRequest) &&
    0 <= s.ignorCount <= MaxIgnored + 1 &&
    match s.status
    case Healthy => s.ignorCount < MaxIgnored
    case Sick => s.ignorCount == MaxIgnored && s.currentRequest == Heal && s.waitingForAnswer
    case Dead => !s.requestTimerOn && !s.lifeTimerOn
  }

  /** The freshly constructed pet; `currentRequest` holds the language's default 0. */
  function Initial(name: string): (s: PetState)
    ensures Inv(s) && s.name == name
    ensures s.status == Healthy && s.ignorCount == 0
    ensures !s.hasPreviousRequest && !s.waitingForAnswer
    ensures !s.requestTimerOn && !s.lifeTimerOn
  {
    PetState(name, Healthy, 0, Feed, -1, false, false, false, false)
  }

  /** Start: both timers run, unless the pet is already dead. */
  function Start(s: PetState): (r: PetState)
    ensures s.status == Dead ==> r == s
    ensures s.status != Dead ==> r.requestTimerOn && r.lifeTimerOn
    ensures r.(requestTimerOn := s.requestTimerOn, lifeTimerOn := s.lifeTimerOn) == s
    ensures Inv(s) ==> Inv(r)
  {
    if s.status == Dead then s
    else s.(requestTimerOn := true, lifeTimerOn := true)
  }

  /** The request timer draws a fresh kind only for a healthy pet with no request outstanding. */
  predicate WillDraw(s: PetState) {
    s.status == Healthy && !s.waitingForAnswer
  }

  /** The random stream is good enough for the state the tick finds. */
  predicate DrawsFit(s: PetState, draws: seq<int>) {
    WillDraw(s) ==> CanDraw(draws, s.hasPreviousRequest, s.previousRequest)
  }

  /** Only the request fields and the waiting flag may differ. */
  predicate SameExceptRequest(s: PetState, t: PetState) {
    t.name == s.name && t.status == s.status && t.ignorCount == s.ignorCount &&
    t.requestTimerOn == s.requestTimerOn && t.lifeTimerOn == s.lifeTimerOn
  }

  /** MakeRequest: the pending-request guard first, then the forced Heal of a
      sick pet, then a random kind that does not repeat the previous one. */
  function MakeRequest(s: PetState, draws: seq<int>): (r: Transition)
    requires DrawsFit(s, draws)
    ensures s.status == Dead || s.waitingForAnswer ==> r == Transition(s, [])
    ensures !(s.status == Dead || s.waitingForAnswer) ==>
      SameExceptRequest(s, r.next) && r.next.waitingForAnswer &&
      |r.emitted| == 1 && r.emitted[0].ThisRequest?
    ensures s.status == Sick && !s.waitingForAnswer ==>
      r.next.currentRequest == Heal && r.emitted == [ThisRequest(SickPrompt)] &&
      r.next.previousRequest == s.previousRequest &&
      r.next.hasPreviousRequest == s.hasPreviousRequest
    ensures WillDraw(s) ==>
      IsKind(r.next.currentRequest) &&
      Acceptable(s.hasPreviousRequest, s.previousRequest, r.next.currentRequest) &&
      r.next.hasPreviousRequest && r.next.previousRequest == r.next.currentRequest &&
      r.emitted == [ThisRequest(RequestMessage(r.next.currentRequest))]
  {
    if s.status == Dead || s.waitingForAnswer then Transition(s, [])
    else if s.status == Sick then
      Transition(s.(waitingForAnswer := true, currentRequest := Heal), [ThisRequest(SickPrompt)])
    else
      var k := draws[FirstAcceptable(draws, s.hasPreviousRequest, s.previousRequest)];
      Transition(
        s.(waitingForAnswer := true, previousRequest := k, hasPreviousRequest := true, currentRequest := k),
        [ThisRequest(RequestMessage(k))])
  }

  /** Die: starvation. Both timers stop and one Death notification names the pet. */
  function Die(s: PetState): (r: Transition)
    ensures r.next.status == Dead && !r.next.requestTimerOn && !r.next.lifeTimerOn
    ensures r.next.(status := s.status, requestTimerOn := s.requestTimerOn, lifeTimerOn := s.lifeTimerOn) == s
    ensures r.emitted == [Death(s.name + " помер")] && Deaths(r.emitted) == 1
  {
    Transition(s.(status := Dead, requestTimerOn := false, lifeTimerOn := false), [Death(s.name + " помер")])
  }

  /** LifeEnd: the one-shot life timer has fired (so it no longer runs); a pet
      that is still alive reaches its natural end, with no Death notification. */
  function LifeEnd(s: PetState): (r: Transition)
    ensures r.emitted == []
    ensures r.next.status == Dead && !r.next.lifeTimerOn
    ensures s.status != Dead ==> !r.next.requestTimerOn
    ensures s.status == Dead ==> r.next.requestTimerOn == s.requestTimerOn
    ensures r.next.(status := s.status, requestTimerOn := s.requestTimerOn, lifeTimerOn := s.lifeTimerOn) == s
  {
    var fired := s.(lifeTimerOn := false);
    if s.status != Dead then Transition(fired.(requestTimerOn := false, status := Dead), [])
    else Transition(fired, [])
  }

  /** The ignored answer that makes a healthy pet sick. */
  predicate FallsIll(s: PetState, satisfied: bool) {
    !satisfied && s.status == Healthy && s.ignorCount + 1 >= MaxIgnored
  }

  /** The ignored answer to a sick pet's Heal request. */
  predicate Starves(s: PetState, satisfied: bool) {
    !satisfied && s.status == Sick && s.currentRequest == Heal
  }

  /** HandleRequest: a yes resets the counter and cures a sick pet whose Heal
      request it answers; a no counts one more ignore, makes a healthy pet sick
      at the threshold (issuing the Heal request at once), and kills a sick pet
      whose Heal request it ignores. */
  function HandleRequest(s: PetState, satisfied: bool): (r: Transition)
    ensures r.next.name == s.name
    ensures satisfied ==> r.next.ignorCount == 0
    ensures !satisfied ==> r.next.ignorCount == s.ignorCount + 1
    ensures s.status == Dead ==> r.next.status == Dead && r.emitted == []
    ensures satisfied && s.status == Sick ==> (r.next.status == Healthy <==> s.currentRequest == Heal)
    ensures satisfied && s.status == Sick && s.currentRequest == Heal ==>
      r.emitted == [StatusChanged(s.name + " recovered!")]
    ensures satisfied && s.status == Healthy ==>
      r.next.status == Healthy && r.emitted == [Reply(ResponseMessage(s.currentRequest))]
    ensures !satisfied && s.status == Healthy ==>
      (r.next.status == Sick <==> s.ignorCount + 1 >= MaxIgnored) &&
      (r.next.status == Healthy <==> s.ignorCount + 1 < MaxIgnored)
    ensures !satisfied && s.status == Healthy && s.ignorCount + 1 >= MaxIgnored ==>
      r.next.currentRequest == Heal && r.next.waitingForAnswer && !r.next.requestTimerOn &&
      r.next.previousRequest == s.previousRequest &&
      r.next.hasPreviousRequest == s.hasPreviousRequest &&
      r.emitted == [StatusChanged(s.name + " sick!"), ThisRequest(SickPrompt)]
    ensures !satisfied && s.status == Healthy && s.ignorCount + 1 < MaxIgnored ==> r.emitted == []
    ensures !satisfied && s.status == Sick ==> (r.next.status == Dead <==> s.currentRequest == Heal)
    ensures !satisfied && s.status == Sick && s.currentRequest == Heal ==>
      r.emitted == [Death(s.name + " помер")]
    ensures Deaths(r.emitted) == (if !satisfied && s.status == Sick && s.currentRequest == Heal then 1 else 0)
    // what no path changes
    ensures r.next.previousRequest == s.previousRequest
    ensures r.next.hasPreviousRequest == s.hasPreviousRequest
    ensures r.next.status != Dead ==> r.next.lifeTimerOn == s.lifeTimerOn
    // what only falling ill or dying changes
    ensures !FallsIll(s, satisfied) && !Starves(s, satisfied) ==>
      r.next.currentRequest == s.currentRequest &&
      r.next.waitingForAnswer == s.waitingForAnswer &&
      r.next.requestTimerOn == s.requestTimerOn &&
      r.next.lifeTimerOn == s.lifeTimerOn
  {
    if satisfied then
      var reset := s.(ignorCount := 0);
      if s.status == Sick && s.currentRequest == Heal then
        Transition(reset.(status := Healthy), [StatusChanged(s.name + " recovered!")])
      else if s.status == Healthy then
        Transition(reset, [Reply(ResponseMessage(s.currentRequest))])
      else
        Transition(reset, [])
    else
      var counted := s.(ignorCount := s.ignorCount + 1);
      if counted.ignorCount >= MaxIgnored && s.status == Healthy then
        // fall ill, stop the request timer, clear the guard and issue the Heal
        // request without waiting for the timer; the timer is restarted once
        // that request has been answered (see Answer)
        var ill := counted.(status := Sick, requestTimerOn := false, waitingForAnswer := false);
        var t := MakeRequest(ill, []);
        Transition(t.next, [StatusChanged(s.name + " sick!")] + t.emitted)
      else if s.status == Sick && s.currentRequest == Heal then
        Die(counted)
      else
        Transition(counted, [])
  }

  /** The user's answer to an outstanding request: classify it, handle it, and
      clear the pending flag. When handling made the pet sick, the forced Heal
      request is now showing: the flag stays set and the request timer stays
      stopped until that request is answered. Answering it (a sick pet's answer)
      ends the nested prompt, after which the request timer is restarted. A pet
      that died leaves the process, so nothing follows. */
  function Answer(s: PetState, reply: string): (r: Transition)
    ensures r.emitted == HandleRequest(s, IsSatisfied(reply)).emitted
    ensures r.next == HandleRequest(s, IsSatisfied(reply)).next.(
      waitingForAnswer := r.next.waitingForAnswer, requestTimerOn := r.next.requestTimerOn)
    ensures r.next.status == Healthy ==> !r.next.waitingForAnswer
    ensures r.next.status == Sick ==>
      (r.next.waitingForAnswer <==> s.status == Healthy)
    ensures s.status == Healthy && r.next.status == Sick ==> !r.next.requestTimerOn
    ensures s.status == Sick && r.next.status != Dead ==> r.next.requestTimerOn
    ensures s.status == Healthy && r.next.status == Healthy ==> r.next.requestTimerOn == s.requestTimerOn
  {
    var t := HandleRequest(s, IsSatisfied(reply));
    if t.next.status == Dead || (s.status == Healthy && t.next.status == Sick) then t
    else if s.status == Sick then Transition(t.next.(waitingForAnswer := false, requestTimerOn := true), t.emitted)
    else Transition(t.next.(waitingForAnswer := false), t.emitted)
  }

  /** Every reply other than the two affirmative tokens is handled exactly like "n". */
  lemma NonTokenIsIgnore(s: PetState, reply: string)
    requires reply != "y" && reply != "так"
    ensures Answer(s, reply) == Answer(s, "n")
  {
  }

  /** The two affirmative tokens are handled alike, and unlike an ignore. */
  lemma AffirmativeTokensAgree(s: PetState)
    ensures Answer(s, "y") == Answer(s, "так")
    ensures Answer(s, "y").next.ignorCount == 0
    ensures Answer(s, "n").next.ignorCount == s.ignorCount + 1
  {
  }

  /** What can happen to a running pet: a request-timer tick (with the random
      draws it would make), the user's answer, or the life timer running out. */
  datatype Event =
    | RequestTimerElapsed(draws: seq<int>)
    | Answered(reply: string)
    | LifeTimerElapsed

  /** Whether the event can occur: a timer fires only while it runs, and an answer
      exists only for an outstanding request of a living pet. */
  predicate Possible(s: PetState, e: Event) {
    match e
    case RequestTimerElapsed(draws) => s.requestTimerOn && DrawsFit(s, draws)
    case Answered(_) => s.waitingForAnswer && s.status != Dead
    case LifeTimerElapsed => s.lifeTimerOn
  }

  function Step(s: PetState, e: Event): Transition
    requires Possible(s, e)
  {
    match e
    case RequestTimerElapsed(draws) => MakeRequest(s, draws)
    case Answered(reply) => Answer(s, reply)
    case LifeTimerElapsed => LifeEnd(s)
  }

  /** Every event of the run can occur in the state it meets. */
  predicate Feasible(s: PetState, evs: seq<Event>)
    decreases |evs|
  {
    |evs| == 0 || (Possible(s, evs[0]) && Feasible(Step(s, evs[0]).next, evs[1..]))
  }

  /** The final state of a run, and every notification sent along the way. */
  function Run(s: PetState, evs: seq<Event>): Transition
    requires Feasible(s, evs)
    decreases |evs|
  {
    if |evs| == 0 then Transition(s, [])
    else
      var t := Step(s, evs[0]);
      var rest := Run(t.next, evs[1..]);
      Transition(rest.next, t.emitted + rest.emitted)
  }

  /** Each event keeps the invariant. */
  lemma StepPreservesInv(s: PetState, e: Event)
    requires Inv(s) && Possible(s, e)
    ensures Inv(Step(s, e).next)
  {
  }

  lemma {:induction false} RunPreservesInv(s: PetState, evs: seq<Event>)
    requires Inv(s) && Feasible(s, evs)
    ensures Inv(Run(s, evs).next)
    decreases |evs|
  {
    if |evs| > 0 {
      StepPreservesInv(s, evs[0]);
      RunPreservesInv(Step(s, evs[0]).next, evs[1..]);
    }
  }

  /** Every reachable sick pet is waiting for the answer to a Heal request, so a
      request-timer tick never reaches the forced-Heal branch: that branch runs
      only from the transition into sickness. */
  lemma SickTickIsNoOp(s: PetState, draws: seq<int>)
    requires Inv(s) && s.status == Sick
    ensures s.waitingForAnswer && s.currentRequest == Heal
    ensures MakeRequest(s, draws) == Transition(s, [])
  {
  }

  /** Dead is final: no timer runs and no answer is pending, so nothing can happen. */
  lemma DeadIsFinal(s: PetState, evs: seq<Event>)
    requires Inv(s) && s.status == Dead && Feasible(s, evs)
    ensures evs == []
  {
  }

  /** The answer to a sick pet's Heal request decides its fate: a yes cures it and
      resets the counter, anything else kills it with exactly one Death notification. */
  lemma SickAnswer(s: PetState, reply: string)
    requires Inv(s) && s.status == Sick
    ensures IsSatisfied(reply) ==>
      Answer(s, reply).next.status == Healthy && Answer(s, reply).next.ignorCount == 0 &&
      !Answer(s, reply).next.waitingForAnswer &&
      Answer(s, reply).emitted == [StatusChanged(s.name + " recovered!")]
    ensures !IsSatisfied(reply) ==>
      Answer(s, reply).next.status == Dead &&
      Answer(s, reply).emitted == [Death(s.name + " помер")]
  {
  }

  /** A step sends a Death notification only when it kills a living pet, and at most one. */
  lemma StepDeaths(s: PetState, e: Event)
    requires Possible(s, e)
    ensures Deaths(Step(s, e).emitted) <= 1
    ensures Deaths(Step(s, e).emitted) == 1 ==> s.status != Dead && Step(s, e).next.status == Dead
  {
  }

  /** The Death notification fires at most once in any run, and never after death. */
  lemma {:induction false} AtMostOneDeath(s: PetState, evs: seq<Event>)
    requires Feasible(s, evs)
    ensures Deaths(Run(s, evs).emitted) <= (if s.status == Dead then 0 else 1)
    ensures Deaths(Run(s, evs).emitted) == 1 ==> Run(s, evs).next.status == Dead
    decreases |evs|
  {
    if |evs| > 0 {
      var t := Step(s, evs[0]);
      StepDeaths(s, evs[0]);
      AtMostOneDeath(t.next, evs[1..]);
      DeathsAppend(t.emitted, Run(t.next, evs[1..]).emitted);
      if s.status == Dead {
        assert t.next.status == Dead;
      }
      if Deaths(t.emitted) == 1 {
        assert t.next.status == Dead;
      }
    }
  }

  predicate Satisfying(e: Event) {
    e.RequestTimerElapsed? || (e.Answered? && IsSatisfied(e.reply))
  }

  /** A healthy pet whose every request is satisfied stays healthy with no ignores. */
  lemma {:induction false} SatisfiedStaysHealthy(s: PetState, evs: seq<Event>)
    requires s.status == Healthy && s.ignorCount == 0 && Feasible(s, evs)
    requires forall i :: 0 <= i < |evs| ==> Satisfying(evs[i])
    ensures Run(s, evs).next.status == Healthy && Run(s, evs).next.ignorCount == 0
    ensures Deaths(Run(s, evs).emitted) == 0
    decreases |evs|
  {
    if |evs| > 0 {
      var t := Step(s, evs[0]);
      AtMostOneDeath(s, evs);
      assert forall i :: 0 <= i < |evs[1..]| ==> Satisfying(evs[1..][i]) by {
        forall i | 0 <= i < |evs[1..]| ensures Satisfying(evs[1..][i]) {
          assert evs[1..][i] == evs[i + 1];
        }
      }
      SatisfiedStaysHealthy(t.next, evs[1..]);
    }
  }

  predicate Ignoring(e: Event) {
    e.RequestTimerElapsed? || (e.Answered? && !IsSatisfied(e.reply))
  }

  /** Number of answers in a run. */
  function AnswerCount(evs: seq<Event>): (n: nat)
    ensures n <= |evs|
  {
    if evs == [] then 0
    else (if evs[0].Answered? then 1 else 0) + AnswerCount(evs[1..])
  }

  /** How far a pet has gone down the road of neglect: its ignore counter while
      alive, one past the threshold once dead. */
  function Neglect(s: PetState): int {
    if s.status == Dead then MaxIgnored + 1 else s.ignorCount
  }

  /** Under the invariant the neglect level alone decides the status. */
  lemma NeglectDecidesStatus(s: PetState)
    requires Inv(s)
    ensures s.status == Healthy <==> Neglect(s) < MaxIgnored
    ensures s.status == Sick <==> Neglect(s) == MaxIgnored
    ensures s.status == Dead <==> Neglect(s) == MaxIgnored + 1
  {
  }

  /** With no satisfied answer and no natural end, every ignored answer raises the
      neglect level by exactly one: Healthy below the threshold, Sick at it, Dead past it. */
  lemma {:induction false} IgnoresAccumulate(s: PetState, evs: seq<Event>)
    requires Inv(s) && Feasible(s, evs)
    requires forall i :: 0 <= i < |evs| ==> Ignoring(evs[i])
    ensures Neglect(Run(s, evs).next) == Neglect(s) + AnswerCount(evs)
    decreases |evs|
  {
    if |evs| > 0 {
      var t := Step(s, evs[0]);
      StepPreservesInv(s, evs[0]);
      assert forall i :: 0 <= i < |evs[1..]| ==> Ignoring(evs[1..][i]) by {
        forall i | 0 <= i < |evs[1..]| ensures Ignoring(evs[1..][i]) {
          assert evs[1..][i] == evs[i + 1];
        }
      }
      IgnoresAccumulate(t.next, evs[1..]);
    }
  }

  /** Three ignored requests of a healthy pet with a clean record make it sick,
      with its Heal request outstanding; ignoring that one too is fatal. */
  lemma ThreeIgnoresMakeSick(s: PetState, evs: seq<Event>)
    requires Inv(s) && s.status == Healthy && s.ignorCount == 0 && Feasible(s, evs)
    requires forall i :: 0 <= i < |evs| ==> Ignoring(evs[i])
    requires AnswerCount(evs) == MaxIgnored
    ensures Run(s, evs).next.status == Sick
    ensures Run(s, evs).next.currentRequest == Heal && Run(s, evs).next.waitingForAnswer
    ensures Possible(Run(s, evs).next, Answered("n"))
    ensures Answer(Run(s, evs).next, "n").next.status == Dead
  {
    IgnoresAccumulate(s, evs);
    RunPreservesInv(s, evs);
    NeglectDecidesStatus(Run(s, evs).next);
  }

  /** The kinds drawn at random by one event: one kind if the tick drew, else none. */
  function Drawn(s: PetState, e: Event): (d: seq<int>)
    requires Possible(s, e)
    ensures |d| <= 1
  {
    if e.RequestTimerElapsed? && WillDraw(s) then [Step(s, e).next.currentRequest] else []
  }

  /** The kinds drawn at random along a run, in order. */
  function DrawnKinds(s: PetState, evs: seq<Event>): seq<int>
    requires Feasible(s, evs)
    decreases |evs|
  {
    if |evs| == 0 then []
    else Drawn(s, evs[0]) + DrawnKinds(Step(s, evs[0]).next, evs[1..])
  }

  /** An event that draws nothing leaves the previous request as it was. */
  lemma PreviousKeptWithoutDraw(s: PetState, e: Event)
    requires Possible(s, e) && Drawn(s, e) == []
    ensures Step(s, e).next.previousRequest == s.previousRequest
    ensures Step(s, e).next.hasPreviousRequest == s.hasPreviousRequest
  {
  }

  /** No kind is drawn twice in a row, and the first draw differs from the
      previous request the run starts with. Forced Heal requests are not draws. */
  lemma {:induction false} NoImmediateRepeat(s: PetState, evs: seq<Event>)
    requires Feasible(s, evs)
    ensures forall i :: 0 <= i < |DrawnKinds(s, evs)| ==> IsKind(DrawnKinds(s, evs)[i])
    ensures forall i :: 0 < i < |DrawnKinds(s, evs)| ==>
      DrawnKinds(s, evs)[i - 1] != DrawnKinds(s, evs)[i]
    ensures |DrawnKinds(s, evs)| > 0 ==>
      Acceptable(s.hasPreviousRequest, s.previousRequest, DrawnKinds(s, evs)[0])
    decreases |evs|
  {
    if |evs| > 0 {
      var t := Step(s, evs[0]);
      NoImmediateRepeat(t.next, evs[1..]);
      if Drawn(s, evs[0]) == [] {
        PreviousKeptWithoutDraw(s, evs[0]);
      }
    }
  }

  /** One event in front of a run. */
  lemma RunCons(s: PetState, e: Event, evs: seq<Event>)
    requires Possible(s, e) && Feasible(Step(s, e).next, evs)
    ensures Feasible(s, [e] + evs)
    ensures Run(s, [e] + evs) ==
      Transition(Run(Step(s, e).next, evs).next, Step(s, e).emitted + Run(Step(s, e).next, evs).emitted)
  {
  }

  /** A pet named "Rex" that ignores three requests falls ill and is asked to be
      treated; ignoring that too kills it, and the Death notification names it. */
  lemma RexScenario()
    ensures var s := Start(Initial("Rex"));
      var evs := [RequestTimerElapsed([Feed]), Answered("n"),
                  RequestTimerElapsed([Feed, Walk]), Answered("n"),
                  RequestTimerElapsed([Sleep]), Answered("n")];
      Feasible(s, evs) &&
      Run(s, evs).next.status == Sick &&
      Run(s, evs).emitted[|Run(s, evs).emitted| - 1] == ThisRequest(SickPrompt) &&
      Answer(Run(s, evs).next, "n").emitted == [Death("Rex помер")]
  {
    var s0 := Start(Initial("Rex"));
    var e1, e2, e3 := RequestTimerElapsed([Feed]), Answered("n"), RequestTimerElapsed([Feed, Walk]);
    var e4, e5, e6 := Answered("n"), RequestTimerElapsed([Sleep]), Answered("n");
    assert !IsSatisfied("n");
    assert Acceptable(s0.hasPreviousRequest, s0.previousRequest, e1.draws[0]);
    var s1 := Step(s0, e1).next;
    var s2 := Step(s1, e2).next;
    assert Acceptable(s2.hasPreviousRequest, s2.previousRequest, e3.draws[1]);
    var s3 := Step(s2, e3).next;
    var s4 := Step(s3, e4).next;
    assert Acceptable(s4.hasPreviousRequest, s4.previousRequest, e5.draws[0]);
    var s5 := Step(s4, e5).next;
    assert s1.currentRequest == Feed && s1.waitingForAnswer;
    assert s2.ignorCount == 1 && s2.status == Healthy && !s2.waitingForAnswer;
    assert s3.currentRequest == Walk && s3.waitingForAnswer;
    assert s4.ignorCount == 2 && s4.status == Healthy && !s4.waitingForAnswer;
    assert s5.currentRequest == Sleep && s5.waitingForAnswer;
    var last := Step(s5, e6);
    assert last.next.status == Sick && last.emitted == [StatusChanged("Rex" + " sick!"), ThisRequest(SickPrompt)];
    assert "Rex" + " помер" == "Rex помер";
    RunCons(s5, e6, []);
    RunCons(s4, e5, [e6]);
    RunCons(s3, e4, [e5, e6]);
    RunCons(s2, e3, [e4, e5, e6]);
    RunCons(s1, e2, [e3, e4, e5, e6]);
    RunCons(s0, e1, [e2, e3, e4, e5, e6]);
    assert [e1] + [e2, e3, e4, e5, e6] == [e1, e2, e3, e4, e5, e6];
  }
}
