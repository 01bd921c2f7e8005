/** The pet object: its fields updated in place by the timer handlers and by the
    user's answers, each handler proved to perform the transition PetMachine
    defines and to keep the pet's invariant. */
module Tamagotchi {
  import opened Requests
  import M = PetMachine

  class Tamagoch {
    const name: string
    var status: M.Status
    var ignorCount: int
    var currentRequest: int
    var previousRequest: int
    var hasPreviousRequest: bool
    var waitingForAnswer: bool
    // whether the request timer and the one-shot life timer are running
    var requestTimerOn: bool
    var lifeTimerOn: bool
    // every notification sent to the observers so far, in order
    ghost var log: seq<M.Notification>

    /** The object's fields as a PetMachine state. */
    function State(): M.PetState
      reads this
    {
      M.PetState(name, status, ignorCount, currentRequest, previousRequest,
                 hasPreviousRequest, waitingForAnswer, requestTimerOn, lifeTimerOn)
    }

    ghost predicate Valid()
      reads this
    {
      M.Inv(State())
    }

    constructor(name: string)
      ensures State() == M.Initial(name) && log == []
      ensures Valid()
    {
      this.name := name;
      status := M.Healthy;
      ignorCount := 0;
      currentRequest := Feed;
      previousRequest := -1;
      hasPreviousRequest := false;
      waitingForAnswer := false;
      requestTimerOn := false;
      lifeTimerOn := false;
      log := [];
    }

    method Start()
      modifies this
      ensures State() == M.Start(old(State())) && log == old(log)
      ensures old(Valid()) ==> Valid()
    {
      if status == M.Dead {
        return;
      }
      requestTimerOn := true;
      lifeTimerOn := true;
    }

    /** The request timer's handler, together with the notification part of
        showing the request; `draws` are the values the random generator yields. */
    method MakeRequest(draws: seq<int>)
      requires M.DrawsFit(State(), draws)
      modifies this
      ensures State() == M.MakeRequest(old(State()), draws).next
      ensures log == old(log) + M.MakeRequest(old(State()), draws).emitted
      ensures old(Valid()) ==> Valid()
    {
      if status == M.Dead || waitingForAnswer {
        return;
      }
      waitingForAnswer := true;
      if status == M.Sick {
        currentRequest := Heal;
        log := log + [M.ThisRequest(SickPrompt)];
        return;
      }
      var newRequest := DrawRequest(draws, hasPreviousRequest, previousRequest);
      previousRequest := newRequest;
      hasPreviousRequest := true;
      currentRequest := newRequest;
      log := log + [M.ThisRequest(RequestMessage(newRequest))];
    }

    /** The answer handler. On falling ill the Heal request is issued here and
        now, with the request timer stopped; its answer is a later call. */
    method HandleRequest(satisfied: bool)
      modifies this
      ensures State() == M.HandleRequest(old(State()), satisfied).next
      ensures log == old(log) + M.HandleRequest(old(State()), satisfied).emitted
    {
      if satisfied {
        ignorCount := 0;
        if status == M.Sick && currentRequest == Heal {
          status := M.Healthy;
          log := log + [M.StatusChanged(name + " recovered!")];
        } else if status == M.Healthy {
          log := log + [M.Reply(ResponseMessage(currentRequest))];
        }
      } else {
        ignorCount := ignorCount + 1;
        if ignorCount >= M.MaxIgnored && status == M.Healthy {
          status := M.Sick;
          log := log + [M.StatusChanged(name + " sick!")];
          requestTimerOn := false;
          waitingForAnswer := false;
          MakeRequest([]);
        } else if status == M.Sick && currentRequest == Heal {
          Die();
        }
      }
    }

    /** The user's reply to the outstanding request. */
    method ReceiveAnswer(reply: string)
      requires waitingForAnswer && status != M.Dead
      modifies this
      ensures State() == M.Answer(old(State()), reply).next
      ensures log == old(log) + M.Answer(old(State()), reply).emitted
      ensures old(Valid()) ==> Valid()
    {
      ghost var before := State();
      var wasHealthy, wasSick := status == M.Healthy, status == M.Sick;
      var satisfied := IsSatisfied(reply);
      HandleRequest(satisfied);
      if status != M.Dead && !(wasHealthy && status == M.Sick) {
        waitingForAnswer := false;
        if wasSick {
          // the answer to the forced Heal request: the request timer restarts
          requestTimerOn := true;
        }
      }
      if M.Inv(before) {
        M.StepPreservesInv(before, M.Answered(reply));
      }
    }

    method Die()
      modifies this
      ensures State() == M.Die(old(State())).next
      ensures log == old(log) + M.Die(old(State())).emitted
    {
      status := M.Dead;
      requestTimerOn := false;
      lifeTimerOn := false;
      log := log + [M.Death(name + " помер")];
    }

    /** The life timer's handler; the timer is one-shot, so it has stopped. */
    method LifeEnd()
      modifies this
      ensures State() == M.LifeEnd(old(State())).next && log == old(log)
      ensures old(Valid()) ==> Valid()
    {
      lifeTimerOn := false;
      if status != M.Dead {
        requestTimerOn := false;
        status := M.Dead;
      }
    }
  }
}
