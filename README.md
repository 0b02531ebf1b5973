# Vitakids action server, modelled in Dafny

This project models the custom actions of the Vitakids chat bot, a Rasa action server
written in Python. The actions are:

- `parse_number`, the lenient reader of weight and height values;
- `ActionCalcularIMC`, which computes the body-mass index (IMC), classifies it and
  persists four slots;
- `ActionRecomendarPlato`, which proposes a dish from the menu of the chosen meal time;
- `ActionManejarConfirmacionPlato`, which handles the user's yes (`afirmar`) or
  no (`negar`) to a proposal. On a no it offers another dish of the same menu and
  never repeats the one just rejected.

Each action is a pure function of four inputs:

- the conversation's slots (`map<string, SlotValue>`);
- the latest intent;
- the menu files, as a map from file name to raw lines;
- the pick that stands in for `random.choice`.

The action returns a `Response`: the messages it utters and the `SlotSet` events it
hands back, or `Unhandled` when the Python code would raise. `Dialogue.Apply` replays
the events the way the dialogue engine persists them. This lets lemmas talk about one
action followed by another.

Modules:

- `Text`: `str.lower`, `str.strip`, `str.replace`.
- `Dialogue`: slot values, events, messages, replies.
- `NumberParse`: `parse_number`.
- `Bmi`: the IMC action.
- `MealTime`: the two label normalisations and the table of menu files.
- `Menu`: cleaning a menu file, excluding the previous dish, choosing.
- `Recommend`: the two recommendation actions and the cycle they form.

All paths below are relative to the repository root.

## Model

| member | source | states |
|---|---|---|
| NumberParse.ParseNumber | Chat_Bot_Deber/actions/actions.py:16-30 | None gives nothing. An int, float or bool is returned as its number; `True` counts as 1. Any other value gives nothing exactly when its text holds no digit; otherwise it gives a non-negative number. |
| NumberParse.CommaToDot | Chat_Bot_Deber/actions/actions.py:23 | Every comma becomes a dot; every other character and the length are unchanged. |
| NumberParse.SearchDecimal | Chat_Bot_Deber/actions/actions.py:24-26 | The search fails exactly when the text holds no digit; a match is never negative. |
| NumberParse.FirstDigitFrom | Chat_Bot_Deber/actions/actions.py:24 | The match starts at the first digit: everything before it is a non-digit. |
| NumberParse.DigitRunEnd | Chat_Bot_Deber/actions/actions.py:24 | `\d+` is greedy: the run is all digits and is followed by a non-digit or the end. |
| NumberParse.ReadsDecimal | Chat_Bot_Deber/actions/actions.py:22-26 | A number with a fraction is read exactly, whether written with a dot or a comma. It may follow text without digits and be followed by a non-digit. |
| NumberParse.ReadsWholeNumber | Chat_Bot_Deber/actions/actions.py:22-26 | A whole number after text without digits is read exactly. What follows may not start with a digit, or with a dot or comma followed by a digit. |
| NumberParse.ReadsCommaDecimal | Chat_Bot_Deber/actions/actions.py:23-26 | "58,5 kg" reads as 58.5. |
| NumberParse.ReadsEmbeddedWhole | Chat_Bot_Deber/actions/actions.py:24-26 | "mido 164 cm" reads as 164. |
| NumberParse.ReadsNothing | Chat_Bot_Deber/actions/actions.py:24-30 | "abc" cannot be read. |
| NumberParse.DropsMinusSign | Chat_Bot_Deber/actions/actions.py:24-26 | "-60" reads as 60: the pattern has no sign. |
| Bmi.Classify | Chat_Bot_Deber/actions/actions.py:68-73 | Each band holds exactly when the index is in its range: below 18.5, from 18.5 below 25, and from 25 up. |
| Bmi.ClassifyMonotone | Chat_Bot_Deber/actions/actions.py:68-73 | A larger index never falls into a lower band. |
| Bmi.BandBoundaries | Chat_Bot_Deber/actions/actions.py:68-73 | Each boundary belongs to the upper band: 18.5 is healthy and 25 is high. |
| Bmi.Imc | Chat_Bot_Deber/actions/actions.py:65 | A positive weight and height give a positive index, and the index times the squared height is the weight. |
| Bmi.RoundToCents | Chat_Bot_Deber/actions/actions.py:66 | The whole number of hundredths is within half a hundredth of the value. |
| Bmi.Numeral | Chat_Bot_Deber/actions/actions.py:66 | The numeral of the whole part is a non-empty digit string that denotes it, with no leading zero unless it is "0". |
| Bmi.FormatCents | Chat_Bot_Deber/actions/actions.py:66 | The index text is a whole part without leading zeros, a dot and exactly two digits. |
| Bmi.FormatCentsReadsBack | Chat_Bot_Deber/actions/actions.py:66 | Reading the persisted two-decimal text gives back the index rounded to hundredths, which is within 0.005 of the index. |
| Bmi.Metres | Chat_Bot_Deber/actions/actions.py:57-59 | A height above 3 is divided by 100, any other is kept; the sign is kept, and a height of at most 300 ends up at most 3. |
| Bmi.InterpretationsDiffer | Chat_Bot_Deber/actions/actions.py:69-73 | The interpretation texts of two bands are equal exactly when the bands are: each band has its own text. |
| Bmi.Persisted | Chat_Bot_Deber/actions/actions.py:65-82 | Four updates, in order: the weight, the height in metres, the index `peso / altura²` as two-decimal text, and the interpretation of that index's band. |
| Bmi.PersistedIndex | Chat_Bot_Deber/actions/actions.py:65-66 | For every positive weight and height, the persisted index text reads back within 0.005 of `peso / altura²`. |
| Bmi.HealthyWeights | Chat_Bot_Deber/actions/actions.py:65-71 | The index is in the healthy band exactly when the weight lies between 18.5 and 25 times the squared height. |
| Bmi.CalcularImc | Chat_Bot_Deber/actions/actions.py:40-82 | Unreadable weight or height: ask again and set nothing. A non-positive value once the height is in metres: say so and set nothing. Otherwise utter nothing and persist four slots: the weight, the height in metres, the index text and the band's interpretation. |
| Bmi.CentimetresAsMetres | Chat_Bot_Deber/actions/actions.py:57-59 | A height above 3 and at most 300 gives the same reply as the same height divided by 100. |
| Bmi.SameReadingSameReply | Chat_Bot_Deber/actions/actions.py:48-82 | The reply depends only on the weight read and on the height read, taken in metres. |
| Bmi.PersistedReadBack | Chat_Bot_Deber/actions/actions.py:77-82 | After persisting, the weight and height slots hold the numbers written. |
| Bmi.PersistedDeterminesHeight | Chat_Bot_Deber/actions/actions.py:77-82 | Two assessments of one weight persist the same updates exactly when their heights agree. |
| Bmi.RerunPersistsSame | Chat_Bot_Deber/actions/actions.py:57-82 | Rerunning the action on the slots it persisted gives the same updates exactly when the persisted height is at most 3. |
| Bmi.HealthyExample | Chat_Bot_Deber/actions/actions.py:65-73 | 58 kg at 1.64 m is interpreted as healthy. |
| Bmi.ZeroWeightRejected | Chat_Bot_Deber/actions/actions.py:61-63 | A weight of 0 is rejected as not positive, and nothing is persisted. |
| Text.Lower | Chat_Bot_Deber/actions/actions.py:101 | Lowercasing keeps the length, keeps white space and digits where they are, and leaves no ASCII capital. Each ASCII capital and each Latin-1 capital (À to Þ, except ×) becomes its small letter, 32 code points up, and every other character stays as it is. |
| Text.Strip | Chat_Bot_Deber/actions/actions.py:101 | The result has no white space at either end, and is empty exactly when the text is all white space. |
| Text.StripIsMiddle | Chat_Bot_Deber/actions/actions.py:101 | The result is the slice of the text that starts after its leading white space, and only white space follows it. |
| Text.StripIdempotent | Chat_Bot_Deber/actions/actions.py:130 | Stripping twice is stripping once. |
| Text.ReplaceAll | Chat_Bot_Deber/actions/actions.py:102-108 | A character outside the pattern survives; every character of the result comes from the text or from the replacement. |
| Text.ReplaceAllAbsent | Chat_Bot_Deber/actions/actions.py:108 | Where the pattern does not occur, the text is unchanged. |
| Text.ReplaceAllFirst | Chat_Bot_Deber/actions/actions.py:108 | The first occurrence of the pattern is replaced: the text before it is kept and the rest is rewritten in turn. |
| Text.ReplaceOneChar | Chat_Bot_Deber/actions/actions.py:103-107 | Replacing a one-character pattern substitutes that character everywhere. |
| Text.StripMap | Chat_Bot_Deber/actions/actions.py:101-107 | Stripping commutes with a character map that keeps white space apart from other characters. |
| MealTime.FoldAccentsIsCharMap | Chat_Bot_Deber/actions/actions.py:102-107 | The five vowel replacements act as one character-by-character folding. |
| MealTime.NormalizeForProposal | Chat_Bot_Deber/actions/actions.py:101-109 | The key holds neither an ASCII capital nor an accented vowel. |
| MealTime.ProposalNormalForm | Chat_Bot_Deber/actions/actions.py:101-109 | The normalisation is: lowercase and fold each character, strip, then spell "mañana" as "manana". |
| MealTime.ProposalIgnoresCaseAndAccents | Chat_Bot_Deber/actions/actions.py:101-109 | Labels that differ only in case or in accents on vowels normalise alike. |
| MealTime.NormalizeForFeedback | Chat_Bot_Deber/actions/actions.py:172 | The key holds no ASCII capital (accented vowels are not folded here, see MealTime.AccentedDinner). |
| MealTime.MidMorningLabel | Chat_Bot_Deber/actions/actions.py:101-119 | "Media Mañana" normalises to "media manana" both ways, and both actions find `media_manana.txt`. |
| MealTime.MorningSpellings | Chat_Bot_Deber/actions/actions.py:101-108 | "MAÑANA", "Mañana" and "manana" all normalise to "manana", both ways. |
| MealTime.MenuFile | Chat_Bot_Deber/actions/actions.py:111-119 | A file exists exactly for the five keys, and it is the file listed for that key. |
| MealTime.ProposalFile | Chat_Bot_Deber/actions/actions.py:119 | The recommending action opens one of the five menu files, or none; a number as meal time gives none. |
| MealTime.FeedbackFile | Chat_Bot_Deber/actions/actions.py:182 | The feedback action opens one of the five menu files, or none; when it opens one, the recommending action opens the same one. |
| MealTime.FeedbackKeyAgrees | Chat_Bot_Deber/actions/actions.py:172-182 | Whenever the feedback normalisation finds a key, the recommending normalisation finds the same key. |
| MealTime.AccentedDinner | Chat_Bot_Deber/actions/actions.py:172-183 | "cená" finds the dinner menu when normalised for a proposal, but no menu when normalised for feedback. |
| Menu.CleanLines | Chat_Bot_Deber/actions/actions.py:130 | There are no more dishes than lines, and every dish is non-empty and already stripped. |
| Menu.CleanLinesMembers | Chat_Bot_Deber/actions/actions.py:130 | A dish is on the menu exactly when it is the non-empty stripped text of some line. |
| Menu.CleanLinesConcat | Chat_Bot_Deber/actions/actions.py:192 | Lines are cleaned one by one: the dishes of a split file are those of its parts, in file order. |
| Menu.WithoutPrevious | Chat_Bot_Deber/actions/actions.py:195 | The options are a subsequence of the menu, and a dish is an option exactly when it is on the menu and is not the previous recommendation. |
| Menu.WithoutPreviousCounts | Chat_Bot_Deber/actions/actions.py:195 | Each other dish keeps its number of copies; the previous recommendation keeps none. |
| Menu.Choose | Chat_Bot_Deber/actions/actions.py:139 | The choice is always one of the options, and a pick below their number selects that position. |
| Dialogue.Truthy | Chat_Bot_Deber/actions/actions.py:97 | A slot value is true unless it is None, False, zero or the empty string. |
| Recommend.Propose | Chat_Bot_Deber/actions/actions.py:92-145 | No meal time: ask for one. Unknown meal time, an unreadable file or an empty menu: say so. In each of these cases nothing is set. Otherwise propose a dish of that menu and set only `plato_recomendado`, to that dish. |
| Recommend.HandleFeedback | Chat_Bot_Deber/actions/actions.py:156-213 | "afirmar" sets only `plato_confirmado`. On "negar": an unknown meal time reports the menu unknown; a file that cannot be opened raises; when every dish is the previous one, the menu is reported exhausted; otherwise a dish other than the previous one is proposed and recorded. Any other intent asks for yes or no. |
| Recommend.Feedback | Chat_Bot_Deber/actions/actions.py:156-213 | The feedback action as written answers as the corrected one for every intent other than "negar", and on "negar" whenever its own normalisation finds a menu. |
| Recommend.ProposeOnMenu | Chat_Bot_Deber/actions/actions.py:128-145 | With a known meal time and a non-empty menu, the proposal is the dish the pick selects. |
| Recommend.ProposeReachesEveryDish | Chat_Bot_Deber/actions/actions.py:139 | Every dish of the menu is proposed for some pick. |
| Recommend.RejectOnMenu | Chat_Bot_Deber/actions/actions.py:191-209 | The alternative is the dish the pick selects among the menu's dishes other than the previous one. |
| Recommend.ExhaustedOnMenu | Chat_Bot_Deber/actions/actions.py:195-201 | With no option left, the rejection reports the menu exhausted. |
| Recommend.RejectionReachesEveryOtherDish | Chat_Bot_Deber/actions/actions.py:195-203 | Every dish other than the previous recommendation is proposed for some pick, including dishes rejected earlier. |
| Recommend.SingleDishExhausted | Chat_Bot_Deber/actions/actions.py:195-201 | A one-dish menu is exhausted by rejecting that dish. |
| Recommend.RejectingPrevious | Chat_Bot_Deber/actions/actions.py:192-209 | Rejecting the dish just recommended: the menu is exhausted exactly when every dish is that dish; otherwise another dish of the menu is proposed. |
| Recommend.ProposalRecorded | Chat_Bot_Deber/actions/actions.py:145 | A proposal changes `plato_recomendado` and no other slot. |
| Recommend.ProposalFacts | Chat_Bot_Deber/actions/actions.py:119-145 | A successful proposal used a known menu that could be opened, and its dish is on that menu. |
| Recommend.ProposeThenReject | Chat_Bot_Deber/actions/actions.py:169-209 | After a proposal, a rejection as written either reports the menu unknown or behaves exactly as with the recommending normalisation. |
| Recommend.ConsistentProposeThenReject | Chat_Bot_Deber/actions/actions.py:169-209 | With the recommending normalisation, a rejection after a proposal never reports the menu unknown and never raises. The menu is exhausted exactly when every dish is the proposed one; otherwise another dish of the same menu is proposed. |
| Recommend.AccentedDinnerLostOnRejection | Chat_Bot_Deber/actions/actions.py:172-185 | With meal time "cená", a dinner dish is proposed, but rejecting it reports the menu unknown. |

## Left out

- The Rasa plumbing is not modelled: `Action.name`, the dispatcher, the tracker and the
  domain. Slots are a map, and the intent is the name in the latest message, if any.
- Message wording is not modelled. Each utterance is a `Message` constructor. The
  user's name (the `nombre` slot, default "amigo") and the raw meal-time label are
  interpolated into some texts; they are not carried, since they never affect
  behaviour.
- Logging is left out (lines 46 and 75).
- File access is a map from file name to raw lines. The path is built from the
  module's own directory (lines 124-126 and 187-189). Any failure to open or read a
  file, including a decoding error, is a name missing from the map.
- `random.choice` is a caller-supplied pick taken modulo the number of options. The
  reachability lemmas state that every option is chosen for some pick; uniformity is
  not modelled.
- Floating point is not modelled. Numbers are exact reals, and the index is computed
  exactly. `Bmi.RoundToCents` rounds the exact index half to even, whereas Python
  formats the nearest binary double, so the last digit can differ at ties.
  `parse_number` reads long digit strings exactly, without rounding to a double.
- Unicode is covered only in part:
  - `str.lower` is modelled for ASCII and Latin-1 capitals (U+00C0 to U+00DE, except
    U+00D7); all other characters are left unchanged. Python also lowers other
    capitals, such as the Latin Extended ones (Ā to ā), and it lowers İ to two
    characters.
  - `\d` matches ASCII digits only; Python also matches other Unicode decimal digits.
  - White space is the set of characters for which `str.isspace` holds.
- MealTime.LabelText: a number used as a meal-time label yields no text. The `str()` of a
  number (digits, sign, point, exponent, `inf`, `nan`) never normalises to a key, so
  the outcome is the same.
- Slot values other than None, bool, int, float and str (lists, dicts and other
  objects) are not modelled. For them Python's truthiness (an empty list is false at
  line 97) and the identity comparison with a dish (line 195) would differ from the
  string cases that are modelled.
- Behaviours of the code that the model keeps as they are:
  - A successful IMC assessment utters no message (lines 77-82 return the events
    only).
  - The feedback action opens the menu file without a `try` (line 191), so an
    unreadable file raises and is modelled as `Unhandled`. The proposal action instead
    reports a loading error (lines 128-133).
  - An empty menu is reported as "no dishes available" (lines 135-137).
  - The two actions normalise the meal-time label differently (lines 101-109 and
    172); see Findings.

## Findings

| source | as written | input that shows it | evidently intended | confidence | as-written member | corrected member |
|---|---|---|---|---|---|---|
| Chat_Bot_Deber/actions/actions.py:172 | The feedback action normalises the meal-time label only by lowercasing, stripping and spelling "mañana" as "manana". Unlike lines 101-109, it does not fold á, é, í, ó, ú. | Meal time "cená": the proposal finds `cena.txt` and proposes a dish; "negar" then answers that it does not know which menu to use. | Both actions find the menu with the same normalisation, so a rejection after a proposal always rereads the proposal's menu. | not executed | Recommend.AccentedDinnerLostOnRejection | Recommend.ConsistentProposeThenReject |

`Recommend.Feedback` is the feedback action as written, with the weaker normalisation.
`Recommend.FeedbackConsistent` is the corrected action, which uses the recommending
action's normalisation.
