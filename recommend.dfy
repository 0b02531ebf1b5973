/** `ActionRecomendarPlato` and `ActionManejarConfirmacionPlato`: proposing a dish
    for the chosen meal time, and handling the user's yes or no to it. Each action is
    a function of the slots, the latest intent, the menu files and the random pick,
    giving the messages it utters and the slot events it returns. */
module Recommend {
  import opened Text
  import opened Dialogue
  import opened MealTime
  import opened Menu

  /** The menu files that can be opened, by file name, each as its raw lines. A file
      missing from the map cannot be opened. */
  type Files = map<string, seq<string>>

  /** The reply that proposes `dish` as the recommendation and records it. */
  function Proposal(dish: string): Response {
    Response([DishProposal(dish)], [SlotSet(DishSlot, Str(dish))])
  }

  /** The reply that proposes `dish` after a rejection and records it. */
  function Alternative(dish: string): Response {
    Response([AlternativeProposal(dish)], [SlotSet(DishSlot, Str(dish))])
  }

  /** `ActionRecomendarPlato.run`. Without a meal time it asks for one; for a label
      that does not name one of the five meal times, or a menu file that cannot be
      opened, or a menu without dishes, it says so; in all these cases no slot is set.
      Otherwise it proposes a dish of that menu and records it as the only slot set. */
  function Propose(slots: Slots, files: Files, pick: nat): (r: Response)
    ensures var tiempo := Get(slots, MealTimeSlot);
      !Truthy(tiempo) ==> r == Response([AskMealTime], [])
    ensures var tiempo := Get(slots, MealTimeSlot);
      Truthy(tiempo) && ProposalFile(tiempo).None? ==> r == Response([UnknownMealTime], [])
    ensures var tiempo := Get(slots, MealTimeSlot);
      var file := ProposalFile(tiempo);
      Truthy(tiempo) && file.Some? && file.value !in files ==> r == Response([MenuLoadError], [])
    ensures var tiempo := Get(slots, MealTimeSlot);
      var file := ProposalFile(tiempo);
      Truthy(tiempo) && file.Some? && file.value in files && CleanLines(files[file.value]) == [] ==>
        r == Response([NoDishesAvailable], [])
    ensures var tiempo := Get(slots, MealTimeSlot);
      var file := ProposalFile(tiempo);
      Truthy(tiempo) && file.Some? && file.value in files && CleanLines(files[file.value]) != [] ==>
        exists dish :: dish in CleanLines(files[file.value]) && r == Proposal(dish)
  {
    var tiempo := Get(slots, MealTimeSlot);
    if !Truthy(tiempo) then
      Response([AskMealTime], [])
    else
      var file := ProposalFile(tiempo);
      if file.None? then
        Response([UnknownMealTime], [])
      else if file.value !in files then
        Response([MenuLoadError], [])
      else
        var dishes := CleanLines(files[file.value]);
        if dishes == [] then Response([NoDishesAvailable], []) else Proposal(Choose(dishes, pick))
  }

  /** `ActionManejarConfirmacionPlato.run`, for a given way `fileOf` of finding the
      menu file from the meal-time slot. "afirmar" records the confirmation and nothing
      else. "negar" rereads the menu: an unknown meal time is reported, a file that
      cannot be opened raises, a menu whose every dish is the previous recommendation
      is reported as exhausted, and otherwise a dish of the menu other than the
      previous one is proposed and recorded. Any other intent asks for yes or no. */
  function HandleFeedback(fileOf: SlotValue -> Option<string>, slots: Slots, intent: Option<string>,
                          files: Files, pick: nat): (r: Response)
    ensures intent == Some("afirmar") ==> r == Response([EnjoyYourMeal], [SlotSet(ConfirmedSlot, Bool(true))])
    ensures intent != Some("afirmar") && intent != Some("negar") ==> r == Response([AskYesOrNo], [])
    ensures intent == Some("negar") && fileOf(Get(slots, MealTimeSlot)).None? ==>
      r == Response([UnknownMenu], [])
    ensures var file := fileOf(Get(slots, MealTimeSlot));
      intent == Some("negar") && file.Some? && file.value !in files ==> r == Unhandled
    ensures var file := fileOf(Get(slots, MealTimeSlot));
      intent == Some("negar") && file.Some? && file.value in files &&
      AllPrevious(CleanLines(files[file.value]), Get(slots, DishSlot)) ==>
        r == Response([AllOptionsShown], [])
    ensures var file := fileOf(Get(slots, MealTimeSlot));
      var previous := Get(slots, DishSlot);
      intent == Some("negar") && file.Some? && file.value in files &&
      !AllPrevious(CleanLines(files[file.value]), previous) ==>
        exists dish :: dish in CleanLines(files[file.value]) && !IsPrevious(previous, dish) && r == Alternative(dish)
  {
    var tiempo := Get(slots, MealTimeSlot);
    var previous := Get(slots, DishSlot);
    if intent == Some("afirmar") then
      Response([EnjoyYourMeal], [SlotSet(ConfirmedSlot, Bool(true))])
    else if intent == Some("negar") then
      var file := fileOf(tiempo);
      if file.None? then
        Response([UnknownMenu], [])
      else if file.value !in files then
        Unhandled
      else
        var dishes := CleanLines(files[file.value]);
        var options := WithoutPrevious(dishes, previous);
        if options == [] then
          assert AllPrevious(dishes, previous) by {
            forall i | 0 <= i < |dishes| ensures IsPrevious(previous, dishes[i]) {
              assert dishes[i] in dishes;
            }
          }
          Response([AllOptionsShown], [])
        else
          assert options[0] in options;
          Alternative(Choose(options, pick))
    else
      Response([AskYesOrNo], [])
  }

  /** Every dish of the menu is the previous recommendation. */
  predicate AllPrevious(dishes: seq<string>, previous: SlotValue) {
    forall i :: 0 <= i < |dishes| ==> IsPrevious(previous, dishes[i])
  }

  /** The feedback action as written: it finds the menu file with the weaker
      normalisation, which does not fold accented vowels. It answers as the consistent
      version does except on a rejection whose meal time only the recommending
      normalisation understands. */
  function Feedback(slots: Slots, intent: Option<string>, files: Files, pick: nat): (r: Response)
    ensures intent != Some("negar") || FeedbackFile(Get(slots, MealTimeSlot)).Some? ==>
      r == FeedbackConsistent(slots, intent, files, pick)
  {
    HandleFeedback(FeedbackFile, slots, intent, files, pick)
  }

  /** The feedback action finding the menu file exactly as the recommending action
      does. */
  function FeedbackConsistent(slots: Slots, intent: Option<string>, files: Files, pick: nat): Response {
    HandleFeedback(ProposalFile, slots, intent, files, pick)
  }

  /** When the meal time names a menu that can be opened and holds dishes, the
      proposal is the dish the pick selects from that menu. */
  lemma ProposeOnMenu(slots: Slots, files: Files, pick: nat)
    requires Truthy(Get(slots, MealTimeSlot))
    requires ProposalFile(Get(slots, MealTimeSlot)).Some?
    requires ProposalFile(Get(slots, MealTimeSlot)).value in files
    requires CleanLines(files[ProposalFile(Get(slots, MealTimeSlot)).value]) != []
    ensures Propose(slots, files, pick)
      == Proposal(Choose(CleanLines(files[ProposalFile(Get(slots, MealTimeSlot)).value]), pick))
  {
  }

  /** Every dish of the menu is proposed for some pick: the proposal ranges over the
      whole menu. */
  lemma ProposeReachesEveryDish(slots: Slots, files: Files, dish: string)
    requires Truthy(Get(slots, MealTimeSlot))
    requires ProposalFile(Get(slots, MealTimeSlot)).Some?
    requires ProposalFile(Get(slots, MealTimeSlot)).value in files
    requires dish in CleanLines(files[ProposalFile(Get(slots, MealTimeSlot)).value])
    ensures exists pick: nat :: Propose(slots, files, pick) == Proposal(dish)
  {
    var dishes := CleanLines(files[ProposalFile(Get(slots, MealTimeSlot)).value]);
    var i :| 0 <= i < |dishes| && dishes[i] == dish;
    ProposeOnMenu(slots, files, i);
  }

  /** After a rejection the alternative is the dish the pick selects among the dishes
      of the menu other than the previous recommendation. */
  lemma RejectOnMenu(fileOf: SlotValue -> Option<string>, slots: Slots, files: Files, pick: nat)
    requires fileOf(Get(slots, MealTimeSlot)).Some?
    requires fileOf(Get(slots, MealTimeSlot)).value in files
    requires WithoutPrevious(CleanLines(files[fileOf(Get(slots, MealTimeSlot)).value]), Get(slots, DishSlot)) != []
    ensures HandleFeedback(fileOf, slots, Some("negar"), files, pick)
      == Alternative(Choose(WithoutPrevious(CleanLines(files[fileOf(Get(slots, MealTimeSlot)).value]), Get(slots, DishSlot)), pick))
  {
  }

  /** After a rejection every dish of the menu other than the previous recommendation
      is proposed for some pick: only the latest recommendation is excluded, so a dish
      rejected earlier can come back. */
  lemma RejectionReachesEveryOtherDish(fileOf: SlotValue -> Option<string>, slots: Slots, files: Files, dish: string)
    requires fileOf(Get(slots, MealTimeSlot)).Some?
    requires fileOf(Get(slots, MealTimeSlot)).value in files
    requires dish in CleanLines(files[fileOf(Get(slots, MealTimeSlot)).value])
    requires !IsPrevious(Get(slots, DishSlot), dish)
    ensures exists pick: nat :: HandleFeedback(fileOf, slots, Some("negar"), files, pick) == Alternative(dish)
  {
    var options := WithoutPrevious(CleanLines(files[fileOf(Get(slots, MealTimeSlot)).value]), Get(slots, DishSlot));
    assert dish in options;
    var i :| 0 <= i < |options| && options[i] == dish;
    RejectOnMenu(fileOf, slots, files, i);
    assert Choose(options, i) == dish;
    assert HandleFeedback(fileOf, slots, Some("negar"), files, i) == Alternative(dish);
  }

  /** When no dish of the menu differs from the previous recommendation, a rejection
      reports the menu exhausted. */
  lemma ExhaustedOnMenu(fileOf: SlotValue -> Option<string>, slots: Slots, files: Files, pick: nat)
    requires fileOf(Get(slots, MealTimeSlot)).Some?
    requires fileOf(Get(slots, MealTimeSlot)).value in files
    requires WithoutPrevious(CleanLines(files[fileOf(Get(slots, MealTimeSlot)).value]), Get(slots, DishSlot)) == []
    ensures HandleFeedback(fileOf, slots, Some("negar"), files, pick) == Response([AllOptionsShown], [])
  {
  }

  /** A menu of a single dish is exhausted by rejecting that dish. */
  lemma SingleDishExhausted(fileOf: SlotValue -> Option<string>, slots: Slots, files: Files, pick: nat)
    requires fileOf(Get(slots, MealTimeSlot)).Some?
    requires fileOf(Get(slots, MealTimeSlot)).value in files
    requires |CleanLines(files[fileOf(Get(slots, MealTimeSlot)).value])| == 1
    requires Get(slots, DishSlot) == Str(CleanLines(files[fileOf(Get(slots, MealTimeSlot)).value])[0])
    ensures HandleFeedback(fileOf, slots, Some("negar"), files, pick) == Response([AllOptionsShown], [])
  {
  }

  /** Recording a proposal changes the recommendation slot and no other. */
  lemma ProposalRecorded(slots: Slots, dish: string)
    ensures Get(Apply(slots, Proposal(dish).events), DishSlot) == Str(dish)
    ensures forall n :: n != DishSlot ==> Get(Apply(slots, Proposal(dish).events), n) == Get(slots, n)
  {
    ApplyLastWrite(slots, Proposal(dish).events, 0);
    forall n | n != DishSlot ensures Get(Apply(slots, Proposal(dish).events), n) == Get(slots, n) {
      ApplyKeeps(slots, Proposal(dish).events, n);
    }
  }

  /** A successful proposal was made from the menu of the meal time, which can be
      opened, and the dish is one of its dishes. */
  lemma ProposalFacts(slots: Slots, files: Files, pick: nat, dish: string)
    requires Propose(slots, files, pick) == Proposal(dish)
    ensures ProposalFile(Get(slots, MealTimeSlot)).Some?
    ensures ProposalFile(Get(slots, MealTimeSlot)).value in files
    ensures dish in CleanLines(files[ProposalFile(Get(slots, MealTimeSlot)).value])
  {
  }

  /** A proposal followed by a rejection, with the action as written: either the
      weaker normalisation cannot place the meal time, and the menu is reported
      unknown, or it finds the very menu the proposal used and the rejection goes on
      exactly as with the recommending action's normalisation. */
  lemma ProposeThenReject(slots: Slots, files: Files, pick: nat, pick2: nat, dish: string)
    requires Propose(slots, files, pick) == Proposal(dish)
    ensures var after := Apply(slots, Proposal(dish).events);
      FeedbackFile(Get(slots, MealTimeSlot)).None? ==>
        Feedback(after, Some("negar"), files, pick2) == Response([UnknownMenu], [])
    ensures var after := Apply(slots, Proposal(dish).events);
      FeedbackFile(Get(slots, MealTimeSlot)).Some? ==>
        Feedback(after, Some("negar"), files, pick2) == FeedbackConsistent(after, Some("negar"), files, pick2)
  {
    var tiempo := Get(slots, MealTimeSlot);
    ProposalRecorded(slots, dish);
    assert Get(Apply(slots, Proposal(dish).events), MealTimeSlot) == tiempo;
    if FeedbackFile(tiempo).Some? {
      FeedbackKeyAgrees(LabelText(tiempo).value);
      assert FeedbackFile(tiempo) == ProposalFile(tiempo);
    }
  }

  /** Rejecting the dish that was just recommended: the menu is exhausted exactly when
      every dish is that dish, and otherwise another dish of the menu is proposed. */
  lemma RejectingPrevious(fileOf: SlotValue -> Option<string>, slots: Slots, files: Files, pick: nat, dish: string)
    requires fileOf(Get(slots, MealTimeSlot)).Some?
    requires fileOf(Get(slots, MealTimeSlot)).value in files
    requires Get(slots, DishSlot) == Str(dish)
    ensures var r := HandleFeedback(fileOf, slots, Some("negar"), files, pick);
      var dishes := CleanLines(files[fileOf(Get(slots, MealTimeSlot)).value]);
      r == Response([AllOptionsShown], []) <==> forall i :: 0 <= i < |dishes| ==> dishes[i] == dish
    ensures var r := HandleFeedback(fileOf, slots, Some("negar"), files, pick);
      var dishes := CleanLines(files[fileOf(Get(slots, MealTimeSlot)).value]);
      r != Response([AllOptionsShown], []) ==> exists other :: other in dishes && other != dish && r == Alternative(other)
  {
    var dishes := CleanLines(files[fileOf(Get(slots, MealTimeSlot)).value]);
    var options := WithoutPrevious(dishes, Get(slots, DishSlot));
    if options == [] {
      ExhaustedOnMenu(fileOf, slots, files, pick);
      forall i | 0 <= i < |dishes| ensures dishes[i] == dish {
        assert dishes[i] in dishes && dishes[i] !in options;
      }
    } else {
      var other := Choose(options, pick);
      RejectOnMenu(fileOf, slots, files, pick);
      assert other in dishes && other != dish;
      var j :| 0 <= j < |dishes| && dishes[j] == other;
    }
  }

  /** With the menu found as the recommending action finds it, a rejection right after
      a proposal always rereads the proposal's menu: it never reports an unknown menu
      and never fails to open the file; it reports the menu exhausted exactly when
      every dish is the one just proposed, and otherwise proposes another dish of the
      menu. */
  lemma ConsistentProposeThenReject(slots: Slots, files: Files, pick: nat, pick2: nat, dish: string)
    requires Propose(slots, files, pick) == Proposal(dish)
    ensures ProposalFile(Get(slots, MealTimeSlot)).Some?
    ensures ProposalFile(Get(slots, MealTimeSlot)).value in files
    ensures var r := FeedbackConsistent(Apply(slots, Proposal(dish).events), Some("negar"), files, pick2);
      var dishes := CleanLines(files[ProposalFile(Get(slots, MealTimeSlot)).value]);
      r == Response([AllOptionsShown], []) <==> forall i :: 0 <= i < |dishes| ==> dishes[i] == dish
    ensures var r := FeedbackConsistent(Apply(slots, Proposal(dish).events), Some("negar"), files, pick2);
      var dishes := CleanLines(files[ProposalFile(Get(slots, MealTimeSlot)).value]);
      r != Response([AllOptionsShown], []) ==> exists other :: other in dishes && other != dish && r == Alternative(other)
  {
    ProposalFacts(slots, files, pick, dish);
    var after := Apply(slots, Proposal(dish).events);
    ProposalRecorded(slots, dish);
    assert Get(after, MealTimeSlot) == Get(slots, MealTimeSlot);
    RejectingPrevious(ProposalFile, after, files, pick2, dish);
  }

  /** The weaker normalisation of the feedback action, as written, loses a label the
      proposal accepted: with the meal time "cená" a dish from the dinner menu is
      proposed, but rejecting it reports the menu unknown, where the recommending
      action's normalisation would have reread the dinner menu. */
  lemma AccentedDinnerLostOnRejection(slots: Slots, files: Files, pick: nat, pick2: nat, raw: string)
    requires raw == "cen\U{E1}"
    requires Get(slots, MealTimeSlot) == Str(raw)
    requires "cena.txt" in files && CleanLines(files["cena.txt"]) != []
    ensures var dish := Choose(CleanLines(files["cena.txt"]), pick);
      Propose(slots, files, pick) == Proposal(dish)
    ensures var dish := Choose(CleanLines(files["cena.txt"]), pick);
      var after := Apply(slots, Proposal(dish).events);
      && Feedback(after, Some("negar"), files, pick2) == Response([UnknownMenu], [])
      && FeedbackConsistent(after, Some("negar"), files, pick2) != Response([UnknownMenu], [])
  {
    AccentedDinner(raw);
    var dish := Choose(CleanLines(files["cena.txt"]), pick);
    ProposeOnMenu(slots, files, pick);
    ProposeThenReject(slots, files, pick, pick2, dish);
    ConsistentProposeThenReject(slots, files, pick, pick2, dish);
    var after := Apply(slots, Proposal(dish).events);
    ProposalRecorded(slots, dish);
    assert Get(after, MealTimeSlot) == Str(raw);
  }
}
