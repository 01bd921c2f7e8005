# Tamagotchi care-request state machine in Dafny

A model of the virtual pet in `Tamagoch.cs`. The pet is Healthy, Sick or
Dead. A request timer asks the user to Feed, Walk, Sleep, Heal or Play with
it. A yes clears the ignore counter and cures a sick pet. The third
ignored request makes a healthy pet sick, and the pet immediately asks to be
treated. Ignoring that Heal request starves the pet to death. A one-shot life
timer ends the game ("natural end") if the pet is still alive.

The project has three modules:

- `Requests` (`requests.dfy`): the request kinds, the request and response
  texts, the answer predicate, and the resampling loop that draws a kind
  different from the previous one (`DrawRequest`), proved against
  `FirstAcceptable`.
- `PetMachine` (`pet_machine.dfy`): the handlers as pure transitions
  over a `PetState` snapshot of the pet's fields. Each transition returns the
  new state and the notifications sent (`ThisRequest`, `StatusChanged`, `Death`,
  and `Reply` for the console acknowledgment). The module also has the
  invariant `Inv` of every reachable state, events (`RequestTimerElapsed`
  with the random draws, `Answered`, `LifeTimerElapsed`), runs of events, and
  lemmas about whole runs.
- `Tamagotchi` (`tamagoch.dfy`): class `Tamagoch` with the source's fields
  updated in place. Each handler is proved to perform its `PetMachine`
  transition and to append the notifications to a ghost log. The event
  handlers also keep `Valid()`.

The model treats these things explicitly:

- Timers are two booleans saying whether each timer is running. A timer firing
  is a method call. `Start` starts both (Tamagoch.cs:67-68), `Die` stops both
  (:221-222) and `LifeEnd` stops the request timer (:208). The life timer is
  one-shot, so it counts as stopped once it fires. Falling ill stops the
  request timer (:175); it is restarted (:179) when the forced Heal request
  has been answered and the pet is still alive.
- `random.Next(0, 5)` is a finite prefix of the random stream (`draws`). All
  draws lie in 0..4, and some draw must be acceptable.
- The user's answer is a string parameter.
- The source calls `MakeRequest` again from inside `HandleRequest`
  (Tamagoch.cs:177-178). The model turns this into an explicit step: the
  ignored answer that makes the pet sick clears the pending flag and issues the
  Heal request in the same transition. That request stays outstanding, and the
  answer to it is the next event, which also performs what the source does
  after the nested call returns: clearing `waitingForAnswer` (:136) and
  restarting the request timer (:179). While the Heal request is showing, the
  request timer is stopped, as in the source.
- After `Die` and after a natural end, the source exits the process. In the
  model, no event can happen after death (`DeadIsFinal`).

Consequences of the code that the model proves or records:

- The pending-request guard at Tamagoch.cs:78 runs before the Sick branch at
  :83. A reachable sick pet is always waiting for its Heal answer, so a
  request-timer tick never reaches the forced Heal (`SickTickIsNoOp`). Only the
  transition into sickness issues the forced Heal request.
- A healthy pet draws from all five kinds (:93), Heal included, and a drawn
  Heal becomes `previousRequest` (:96). Only the forced Heal request of a sick
  pet leaves `previousRequest` unchanged (:83-88).
- An ignored answer kills a sick pet only when `currentRequest == Heal` (:181).
  The invariant shows that a reachable sick pet always has Heal outstanding.
- The forced request of a sick pet reads "I feel sick! Treat me!" (:86), not
  `GetRequestMessage(Heal)`, which reads "I feel sick! Heal me!" (:115).

## Model

| member | source | states |
|---|---|---|
| `Requests.RequestMessage` | Tamagoch.cs:104-118 | Every integer has a prompt. The fallback "Pay attention to me!" is returned exactly for kinds outside 0..4. No prompt equals the sick pet's forced prompt. |
| `Requests.RequestMessageInjective` | Tamagoch.cs:104-118 | Different kinds in 0..4 have different prompts. |
| `Requests.ResponseMessage` | Tamagoch.cs:190-202 | "Thank you! " is returned exactly for Heal and unknown kinds. Feed, Walk, Sleep and Play each have their own acknowledgment. |
| `Requests.AnswersAreExact` | Tamagoch.cs:133 | Comparison is exact. "Y", "y ", "yes", "n" and the empty line all count as ignores. |
| `Requests.FirstAcceptable` | Tamagoch.cs:90-94 | The resampling loop stops at the first draw that does not repeat the previous request, and every earlier draw repeated it. |
| `Requests.DrawRequest` | Tamagoch.cs:90-94 | The do-while loop returns the draw at `FirstAcceptable`. That kind is in 0..4 and differs from the previous request when there is one. |
| `PetMachine.Initial` | Tamagoch.cs:37-55 | A new pet is Healthy with no ignores, no previous request, nothing pending and no timer running. It satisfies the invariant. |
| `PetMachine.Start` | Tamagoch.cs:57-69 | A dead pet is left unchanged. Otherwise both timers run and nothing else changes. The invariant is kept. |
| `PetMachine.MakeRequest` | Tamagoch.cs:76-102 | A dead pet or a pending request leaves the state unchanged and sends nothing. A sick pet gets the forced Heal request with "I feel sick! Treat me!" and its previous request unchanged. A healthy pet gets a kind in 0..4 that differs from the previous request. That kind becomes the previous request, and its prompt is sent. In every issuing case the request is pending afterwards and exactly one ThisRequest is sent. |
| `PetMachine.HandleRequest` | Tamagoch.cs:140-188 | A yes sets the counter to 0. It cures a sick pet exactly when the current request is Heal, sending "<name> recovered!". A healthy pet stays healthy and gets the kind's acknowledgment. A no adds exactly 1 to the counter. A healthy pet becomes sick exactly when the counter reaches 3. It then sends "<name> sick!" and the forced Heal request, and that request is pending. A sick pet dies exactly when Heal was ignored, with the single notification "<name> помер". The number of Death notifications is 1 in that case and 0 otherwise. A dead pet stays dead. No path changes the previous request, and the life timer changes only on death. Except when falling ill or dying, the current request, the pending flag and both timers are unchanged; on falling ill the request timer is stopped. |
| `PetMachine.Answer` | Tamagoch.cs:131-136 | The reply is classified and handled. Afterwards a healthy pet has no request pending. A sick pet has a request pending exactly when it was healthy before this answer, which means the forced Heal request is showing; the request timer is then stopped. Answering a sick pet's Heal request without dying restarts the request timer (:179). |
| `PetMachine.NonTokenIsIgnore` | Tamagoch.cs:131-135 | Every reply other than "y" and "так" has exactly the effect of "n": it is an ignore. |
| `PetMachine.AffirmativeTokensAgree` | Tamagoch.cs:131-135 | "y" and "так" have the same effect, which resets the counter, while "n" adds one to it. |
| `PetMachine.Die` | Tamagoch.cs:218-233 | The pet becomes Dead and both timers stop. Nothing else changes. Exactly one Death notification, naming the pet, is sent. |
| `PetMachine.LifeEnd` | Tamagoch.cs:204-216 | The life timer has stopped. A living pet becomes Dead and its request timer stops. No notification is sent, in particular no Death. A dead pet is otherwise untouched. |
| `PetMachine.StepPreservesInv` | Tamagoch.cs:76-233 | Every possible event keeps the invariant. Kinds stay in range. A healthy pet stays below 3 ignores. A sick pet is at 3 with a Heal request pending. A dead pet has both timers stopped. |
| `PetMachine.RunPreservesInv` | Tamagoch.cs:76-233 | The invariant holds after any run of possible events. |
| `PetMachine.SickTickIsNoOp` | Tamagoch.cs:78-88 | A reachable sick pet always waits for its Heal answer, so a request-timer tick changes nothing. |
| `PetMachine.DeadIsFinal` | Tamagoch.cs:204-233 | Once the pet is dead, no event can happen: no timer runs and no answer is pending. |
| `PetMachine.SickAnswer` | Tamagoch.cs:142-153 | For a reachable sick pet, a yes makes it Healthy with no ignores and nothing pending, and sends "<name> recovered!". Anything else kills it with exactly "<name> помер". |
| `PetMachine.StepDeaths` | Tamagoch.cs:218-227 | An event sends at most one Death notification. It sends one only when it kills a living pet. |
| `PetMachine.AtMostOneDeath` | Tamagoch.cs:218-227 | Any run sends at most one Death notification, and none if the pet was already dead. If it sends one, the run ends with the pet dead. |
| `PetMachine.DeathsAppend` | Tamagoch.cs:218-227 | Counting Death notifications adds up over concatenated logs. |
| `PetMachine.SatisfiedStaysHealthy` | Tamagoch.cs:142-159 | A healthy pet with no ignores stays healthy with no ignores through any run of ticks and satisfied answers, and no Death is sent. |
| `PetMachine.NeglectDecidesStatus` | Tamagoch.cs:163-184 | For a reachable state, the neglect level decides the status. Below 3 means Healthy, exactly 3 means Sick, and 4 means Dead. |
| `PetMachine.IgnoresAccumulate` | Tamagoch.cs:163-184 | Through any run of ticks and ignored answers, each ignored answer raises the neglect level by exactly one. |
| `PetMachine.ThreeIgnoresMakeSick` | Tamagoch.cs:163-184 | Three ignored answers take a healthy pet with no ignores to Sick, with a Heal request pending. Ignoring that request kills it. |
| `PetMachine.PreviousKeptWithoutDraw` | Tamagoch.cs:81-98 | An event that draws no kind leaves the previous request and its flag unchanged. |
| `PetMachine.NoImmediateRepeat` | Tamagoch.cs:90-98 | Along any run, randomly drawn kinds are in 0..4 and no kind is drawn twice in a row. The first draw differs from the previous request the run starts with. Forced Heal requests are not draws. |
| `PetMachine.RunCons` | Tamagoch.cs:76-216 | A possible event followed by a feasible run is a feasible run. Its outcome is the event's transition followed by the rest of the run. |
| `PetMachine.RexScenario` | Tamagoch.cs:76-188 | This is a pet named "Rex" that ignores three requests. It falls ill, and its last notification is the forced Heal prompt. Ignoring that prompt sends the Death notification "Rex помер". |
| `Tamagotchi.Tamagoch.constructor` | Tamagoch.cs:37-55 | The fields are those of `PetMachine.Initial`, the log is empty and the object is valid. |
| `Tamagotchi.Tamagoch.Start` | Tamagoch.cs:57-69 | The fields become `PetMachine.Start` of the old fields, and validity is kept. |
| `Tamagotchi.Tamagoch.MakeRequest` | Tamagoch.cs:76-102 | The fields and log advance as `PetMachine.MakeRequest` says, and validity is kept. The random choice is the `DrawRequest` loop. |
| `Tamagotchi.Tamagoch.HandleRequest` | Tamagoch.cs:140-188 | The fields and log advance as `PetMachine.HandleRequest` says. |
| `Tamagotchi.Tamagoch.ReceiveAnswer` | Tamagoch.cs:131-136 | The fields and log advance as `PetMachine.Answer` says, and validity is kept. |
| `Tamagotchi.Tamagoch.Die` | Tamagoch.cs:218-233 | The fields and log advance as `PetMachine.Die` says. |
| `Tamagotchi.Tamagoch.LifeEnd` | Tamagoch.cs:204-216 | The fields advance as `PetMachine.LifeEnd` says, nothing is logged, and validity is kept. |

## Left out

- Console output and input are not modelled: `DrawTamagotchi`, `Console.Clear`, `WriteLine`, `ReadLine` and `ReadKey`. The answer is a parameter. Of the state-dependent console lines, only the acknowledgment of a satisfied request (:157-158) is kept, as a `Reply` notification; the ignore counter line (:165) and the status picture and counter drawn by `DrawTamagotchi` are not.
- Timer intervals (`GetRandomInterval`, Tamagoch.cs:47-54, 71-74) and the 2-second pause at Tamagoch.cs:176 are timing only. Timers are reduced to whether they run.
- `Environment.Exit(0)` (Tamagoch.cs:214, 232) ends the process. The model represents it as the Dead state, from which no event is possible.
- `System.Random` is a finite sequence of draws. The model assumes that sequence contains an acceptable draw, so it does not capture the source's loop running forever if the generator keeps repeating the previous kind.
- The two timer callbacks and the blocking prompt access the fields without synchronisation. That is concurrency, and the model treats events as strictly sequential.
- `Program.cs` (the name prompt and its default name, the event wiring with empty handlers, and the idle loop) is console plumbing and is not part of this model.
- The counter is an unbounded integer rather than the source's 32-bit `int`. The invariant bounds it by 4 in every reachable state, so wrap-around cannot happen.
- The source raises `ThisRequest`, `StatusChanged` and `Death` only when a handler is subscribed (Tamagoch.cs:123, 151, 172, 226). `Program.cs` subscribes all three, so the model always logs them.
