/** The meal-time label and the table of menus. The recommending action and the
    feedback action normalise the label differently: both lowercase it, strip it and
    spell "mañana" as "manana", but only the recommending action also folds the
    accented vowels á, é, í, ó, ú. */
module MealTime {
  import opened Text
  import opened Dialogue

  const Manana := "ma\U{F1}ana"

  predicate IsAccentedVowel(c: char) {
    c == '\U{E1}' || c == '\U{E9}' || c == '\U{ED}' || c == '\U{F3}' || c == '\U{FA}'
  }

  predicate IsUpperAscii(c: char) {
    'A' <= c <= 'Z'
  }

  /** The accent folding, one character at a time. */
  function FoldChar(c: char): (d: char)
    ensures !IsAccentedVowel(d)
    ensures IsAccentedVowel(c) || d == c
  {
    if c == '\U{E1}' then 'a'
    else if c == '\U{E9}' then 'e'
    else if c == '\U{ED}' then 'i'
    else if c == '\U{F3}' then 'o'
    else if c == '\U{FA}' then 'u'
    else c
  }

  /** Lowercasing followed by accent folding. */
  function Canon(c: char): (d: char)
    ensures IsSpace(d) == IsSpace(c)
  {
    FoldChar(LowerChar(c))
  }

  /** The five `.replace` calls that fold the accented vowels. */
  function FoldAccents(t: string): string {
    ReplaceAll(ReplaceAll(ReplaceAll(ReplaceAll(ReplaceAll(t,
      "\U{E1}", "a"), "\U{E9}", "e"), "\U{ED}", "i"), "\U{F3}", "o"), "\U{FA}", "u")
  }

  /** Spelling "mañana" as "manana" brings in no character but m, a and n. */
  lemma SpellManana(t: string)
    ensures forall c :: c in ReplaceAll(t, Manana, "manana") ==> c in t || c == 'm' || c == 'a' || c == 'n'
  {
    forall c | c in "manana" ensures c == 'm' || c == 'a' || c == 'n' {
    }
  }

  /** The label normalisation of the recommending action: lowercase, strip, fold the
      accented vowels, then spell "mañana" as "manana". The result holds neither an
      ASCII capital nor an accented vowel. */
  function NormalizeForProposal(raw: string): (key: string)
    ensures forall c :: c in key ==> !IsUpperAscii(c) && !IsAccentedVowel(c)
  {
    var t := Strip(Lower(raw));
    StripKeeps(Lower(raw));
    FoldedIsPlain(t);
    SpellManana(FoldAccents(t));
    ReplaceAll(FoldAccents(t), Manana, "manana")
  }

  /** The label normalisation of the feedback action: lowercase, strip, then spell
      "mañana" as "manana"; accented vowels are kept. The result holds no ASCII capital. */
  function NormalizeForFeedback(raw: string): (key: string)
    ensures forall c :: c in key ==> !IsUpperAscii(c)
  {
    var t := Strip(Lower(raw));
    StripKeeps(Lower(raw));
    SpellManana(t);
    ReplaceAll(t, Manana, "manana")
  }

  /** The meal-time keys and the menu file of each. */
  const MenuFiles: map<string, string> := map[
    "desayuno" := "desayuno.txt",
    "almuerzo" := "almuerzo.txt",
    "cena" := "cena.txt",
    "media manana" := "media_manana.txt",
    "media tarde" := "media_tarde.txt"
  ]

  /** `archivos.get(tiempo_norm)`: the menu file of a key, for the five keys only. */
  function MenuFile(key: string): (file: Option<string>)
    ensures file.Some? <==> key in {"desayuno", "almuerzo", "cena", "media manana", "media tarde"}
    ensures file.Some? ==> file.value == MenuFiles[key]
  {
    if key in MenuFiles then Some(MenuFiles[key]) else None
  }

  /** `str(tiempo)` for a slot value that may name a meal time. A number's text (its
      digits, sign, point and exponent, or "inf"/"nan") is never a key once normalised,
      so numbers yield None. */
  function LabelText(v: SlotValue): Option<string> {
    match v
    case Null => Some("None")
    case Bool(b) => Some(if b then "True" else "False")
    case Num(_) => None
    case Str(s) => Some(s)
  }

  /** The file the recommending action opens for a meal-time slot, if any: one of the
      five menu files, and never one for a number. */
  function ProposalFile(tiempo: SlotValue): (r: Option<string>)
    ensures r.Some? ==> r.value in MenuFiles.Values
    ensures tiempo.Num? ==> r.None?
  {
    match LabelText(tiempo)
    case None => None
    case Some(raw) => MenuFile(NormalizeForProposal(raw))
  }

  /** The file the feedback action opens for a meal-time slot, if any: one of the five
      menu files, and whenever there is one it is the file the recommending action opens
      for the same slot. */
  function FeedbackFile(tiempo: SlotValue): (r: Option<string>)
    ensures r.Some? ==> r.value in MenuFiles.Values && ProposalFile(tiempo) == r
  {
    match LabelText(tiempo)
    case None => None
    case Some(raw) =>
      var file := MenuFile(NormalizeForFeedback(raw));
      if file.Some? then FeedbackKeyAgrees(raw); file else file
  }

  /** The five one-character replacements act as the character map FoldChar. */
  lemma FoldAccentsIsCharMap(t: string)
    ensures FoldAccents(t) == MapChars(FoldChar, t)
  {
    var t1 := ReplaceAll(t, "\U{E1}", "a");
    ReplaceOneChar(t, '\U{E1}', 'a');
    var t2 := ReplaceAll(t1, "\U{E9}", "e");
    ReplaceOneChar(t1, '\U{E9}', 'e');
    var t3 := ReplaceAll(t2, "\U{ED}", "i");
    ReplaceOneChar(t2, '\U{ED}', 'i');
    var t4 := ReplaceAll(t3, "\U{F3}", "o");
    ReplaceOneChar(t3, '\U{F3}', 'o');
    ReplaceOneChar(t4, '\U{FA}', 'u');
  }

  /** Folding a string without capitals leaves neither capitals nor accented vowels. */
  lemma FoldedIsPlain(t: string)
    requires forall c :: c in t ==> !IsUpperAscii(c)
    ensures forall c :: c in FoldAccents(t) ==> !IsUpperAscii(c) && !IsAccentedVowel(c)
  {
    FoldAccentsIsCharMap(t);
    var folded := MapChars(FoldChar, t);
    forall c | c in folded ensures !IsUpperAscii(c) && !IsAccentedVowel(c) {
      var i :| 0 <= i < |t| && folded[i] == c;
      assert t[i] in t;
    }
  }

  /** The recommending normalisation maps every character through Canon before
      stripping: folding commutes with `strip` because it never touches white space. */
  lemma ProposalNormalForm(raw: string)
    ensures NormalizeForProposal(raw) == ReplaceAll(Strip(MapChars(Canon, raw)), Manana, "manana")
  {
    var lowered := Lower(raw);
    FoldAccentsIsCharMap(Strip(lowered));
    StripMap(FoldChar, lowered);
    assert MapChars(FoldChar, lowered) == MapChars(Canon, raw);
  }

  /** The recommending normalisation ignores case and accents: two labels that agree
      character by character once lowercased and folded normalise alike. */
  lemma ProposalIgnoresCaseAndAccents(a: string, b: string)
    requires MapChars(Canon, a) == MapChars(Canon, b)
    ensures NormalizeForProposal(a) == NormalizeForProposal(b)
  {
    ProposalNormalForm(a);
    ProposalNormalForm(b);
  }

  /** No meal-time key holds an accented vowel. */
  lemma KeysUnaccented(key: string)
    requires MenuFile(key).Some?
    ensures forall c :: c in key ==> !IsAccentedVowel(c)
  {
  }

  /** Folding a string without accented vowels changes nothing. */
  lemma FoldUnaccented(t: string)
    requires forall c :: c in t ==> !IsAccentedVowel(c)
    ensures FoldAccents(t) == t
  {
    FoldAccentsIsCharMap(t);
    assert forall i :: 0 <= i < |t| ==> t[i] in t;
  }

  /** Whenever the feedback normalisation yields a meal-time key, the recommending
      normalisation yields the same key: a valid key has no accented vowel, so the
      stripped label had none and the folding had nothing to do. */
  lemma FeedbackKeyAgrees(raw: string)
    requires MenuFile(NormalizeForFeedback(raw)).Some?
    ensures NormalizeForProposal(raw) == NormalizeForFeedback(raw)
  {
    var t := Strip(Lower(raw));
    var key := ReplaceAll(t, Manana, "manana");
    KeysUnaccented(key);
    MananaUnaccented();
    assert forall c :: c in t ==> !IsAccentedVowel(c);
    FoldUnaccented(t);
  }

  /** "mañana" holds no accented vowel (its ñ is not one). */
  lemma MananaUnaccented()
    ensures forall c :: c in Manana ==> !IsAccentedVowel(c)
  {
  }

  /** The label "cená" (dinner, typed with a stray accent). The recommending
      normalisation turns it into the key "cena"; the feedback normalisation keeps the
      accent, which is no key. */
  lemma AccentedDinner(raw: string)
    requires raw == "cen\U{E1}"
    ensures ProposalFile(Str(raw)) == Some("cena.txt")
    ensures FeedbackFile(Str(raw)) == None
  {
    AccentedDinnerKeys(raw);
    assert raw != "cena" by { assert raw[3] != "cena"[3]; }
  }

  /** The two normalisations of "cená". */
  lemma AccentedDinnerKeys(raw: string)
    requires raw == "cen\U{E1}"
    ensures NormalizeForProposal(raw) == "cena"
    ensures NormalizeForFeedback(raw) == raw
  {
    AccentedDinnerUnchanged(raw);
    FoldAccentsIsCharMap(raw);
    var folded := MapChars(FoldChar, raw);
    assert folded == "cena";
    assert ReplaceAll(folded, Manana, "manana") == folded;
    assert ReplaceAll(raw, Manana, "manana") == raw;
  }

  /** "cená" is already lower case and has no surrounding white space. */
  lemma AccentedDinnerUnchanged(raw: string)
    requires raw == "cen\U{E1}"
    ensures Strip(Lower(raw)) == raw
  {
    LowerFixes(raw);
    StripFixes(raw);
  }

  /** A label already in lower case, with no white space at either end and no accented
      vowel: both normalisations only spell "mañana" as "manana". */
  lemma PlainLabel(raw: string, t: string)
    requires Lower(raw) == t
    requires t != [] && !IsSpace(t[0]) && !IsSpace(t[|t| - 1])
    requires forall c :: c in t ==> !IsAccentedVowel(c)
    ensures NormalizeForProposal(raw) == ReplaceAll(t, Manana, "manana")
    ensures NormalizeForFeedback(raw) == ReplaceAll(t, Manana, "manana")
  {
    StripFixes(t);
    FoldUnaccented(t);
  }

  /** The label "Media Mañana", typed with capitals: both normalisations give the key
      "media manana", whose menu is media_manana.txt. */
  lemma MidMorningLabel(raw: string)
    requires raw == "Media Ma\U{F1}ana"
    ensures NormalizeForProposal(raw) == "media manana"
    ensures NormalizeForFeedback(raw) == "media manana"
    ensures ProposalFile(Str(raw)) == Some("media_manana.txt")
    ensures FeedbackFile(Str(raw)) == Some("media_manana.txt")
  {
    var t := MidMorningLowered(raw);
    PlainLabel(raw, t);
    MidMorningSpelled(t);
  }

  /** "Media Mañana" lowercases to "media mañana". */
  lemma MidMorningLowered(raw: string) returns (t: string)
    requires raw == "Media Ma\U{F1}ana"
    ensures t == "media " + Manana && Lower(raw) == t
    ensures t != [] && !IsSpace(t[0]) && !IsSpace(t[|t| - 1])
    ensures forall c :: c in t ==> !IsAccentedVowel(c)
  {
    t := "media " + Manana;
    forall i | 0 <= i < |raw| ensures LowerChar(raw[i]) == t[i] {
    }
  }

  /** In "media mañana" the only occurrence of "mañana" is the last word, so spelling it
      gives "media manana". */
  lemma MidMorningSpelled(t: string)
    requires t == "media " + Manana
    ensures ReplaceAll(t, Manana, "manana") == "media manana"
  {
    var a := "media ";
    assert t == a + Manana + [];
    forall k | 0 <= k < |a| ensures !OccursAt(t, Manana, k) {
      Mismatch(t, Manana, k, if k == 0 then 1 else 0);
    }
    ReplaceAllFirst(a, Manana, "manana", []);
  }

  /** "mañana" in capitals and capitalised both normalise to "manana", as does the
      spelling without the tilde. */
  lemma MorningSpellings(upper: string, capital: string, plain: string)
    requires upper == "MA\U{D1}ANA" && capital == "Ma\U{F1}ana" && plain == "manana"
    ensures NormalizeForProposal(upper) == NormalizeForFeedback(upper) == "manana"
    ensures NormalizeForProposal(capital) == NormalizeForFeedback(capital) == "manana"
    ensures NormalizeForProposal(plain) == NormalizeForFeedback(plain) == "manana"
  {
    LowersToManana(upper);
    MananaKey(upper);
    LowersToManana(capital);
    MananaKey(capital);
    PlainManana(plain);
  }

  /** "manana" holds no "mañana" and normalises to itself. */
  lemma PlainManana(plain: string)
    requires plain == "manana"
    ensures NormalizeForProposal(plain) == NormalizeForFeedback(plain) == "manana"
  {
    forall i | 0 <= i < |plain| ensures LowerChar(plain[i]) == plain[i] {
    }
    LowerFixes(plain);
    assert forall c :: c in plain ==> !IsAccentedVowel(c);
    PlainLabel(plain, plain);
    NothingToSpell(plain);
  }

  /** "manana" holds no "mañana": spelling leaves it as it is. */
  lemma NothingToSpell(plain: string)
    requires plain == "manana"
    ensures ReplaceAll(plain, Manana, "manana") == plain
  {
    forall k ensures !OccursAt(plain, Manana, k) {
      Mismatch(plain, Manana, k, 2);
    }
    ReplaceAllAbsent(plain, Manana, "manana");
  }

  /** "MAÑANA" and "Mañana" lowercase to "mañana". */
  lemma LowersToManana(raw: string)
    requires raw == "MA\U{D1}ANA" || raw == "Ma\U{F1}ana"
    ensures Lower(raw) == Manana
  {
    forall i | 0 <= i < |raw| ensures LowerChar(raw[i]) == Manana[i] {
    }
  }

  /** A label that lowercases to "mañana" normalises to "manana" both ways. */
  lemma MananaKey(raw: string)
    requires Lower(raw) == Manana
    ensures NormalizeForProposal(raw) == NormalizeForFeedback(raw) == "manana"
  {
    MananaUnaccented();
    PlainLabel(raw, Manana);
    assert Manana == [] + Manana + [];
    ReplaceAllFirst([], Manana, "manana", []);
  }
}
