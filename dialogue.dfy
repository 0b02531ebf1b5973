/** The conversation state the actions read (slots, the latest intent) and what they
    hand back to the dialogue engine (messages to the user and slot events). */
module Dialogue {

  datatype Option<T> = None | Some(value: T)

  /** A slot value as the tracker stores it: None, a bool, a number (`Num` stands for
      a Python int or float) or a string. */
  datatype SlotValue = Null | Bool(b: bool) | Num(x: real) | Str(s: string)

  /** The slots of one conversation, by name. */
  type Slots = map<string, SlotValue>

  const WeightSlot := "peso"
  const HeightSlot := "altura"
  const BmiSlot := "imc"
  const InterpretationSlot := "interpretacion"
  const MealTimeSlot := "tiempo_comida"
  const DishSlot := "plato_recomendado"
  const ConfirmedSlot := "plato_confirmado"

  /** `tracker.get_slot(name)`: None for a slot that was never set. */
  function Get(slots: Slots, name: string): SlotValue {
    if name in slots then slots[name] else Null
  }

  /** Python truthiness of a slot value, as in `if not tiempo`: every value is true
      except None, False, zero and the empty string. */
  function Truthy(v: SlotValue): (r: bool)
    ensures r <==> !(v == Null || v == Bool(false) || v == Num(0.0) || v == Str([]))
  {
    match v
    case Null => false
    case Bool(b) => b
    case Num(x) => x != 0.0
    case Str(s) => s != []
  }

  /** `SlotSet(slot, value)`. */
  datatype Event = SlotSet(slot: string, value: SlotValue)

  /** The messages the actions send, one constructor per distinct utterance. */
  datatype Message =
    | AskWeightAndHeight
    | ValuesMustBePositive
    | AskMealTime
    | UnknownMealTime
    | MenuLoadError
    | NoDishesAvailable
    | DishProposal(dish: string)
    | EnjoyYourMeal
    | UnknownMenu
    | AllOptionsShown
    | AlternativeProposal(dish: string)
    | AskYesOrNo

  /** What one run of an action produces: the messages it utters and the events it
      returns, or an exception that escapes `run`. */
  datatype Response = Response(messages: seq<Message>, events: seq<Event>) | Unhandled

  /** The dialogue engine persisting `events` in order. */
  function Apply(slots: Slots, events: seq<Event>): Slots
    decreases |events|
  {
    if events == [] then slots else Apply(slots[events[0].slot := events[0].value], events[1..])
  }

  /** A slot that no event names keeps its value. */
  lemma {:induction false} ApplyKeeps(slots: Slots, events: seq<Event>, name: string)
    requires forall i :: 0 <= i < |events| ==> events[i].slot != name
    ensures Get(Apply(slots, events), name) == Get(slots, name)
    decreases |events|
  {
    if events != [] {
      ApplyKeeps(slots[events[0].slot := events[0].value], events[1..], name);
    }
  }

  /** A slot ends with the value of the last event that names it. */
  lemma {:induction false} ApplyLastWrite(slots: Slots, events: seq<Event>, i: nat)
    requires i < |events|
    requires forall j :: i < j < |events| ==> events[j].slot != events[i].slot
    ensures Get(Apply(slots, events), events[i].slot) == events[i].value
    decreases |events|
  {
    var next := slots[events[0].slot := events[0].value];
    if i == 0 {
      ApplyKeeps(next, events[1..], events[0].slot);
    } else {
      ApplyLastWrite(next, events[1..], i - 1);
    }
  }
}
