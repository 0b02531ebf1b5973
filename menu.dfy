/** The dishes of a menu file and the choice among them. A menu file is given by its
    raw lines; `random.choice` is replaced by a caller-supplied pick. */
module Menu {
  import opened Text
  import opened Dialogue

  /** `[line.strip() for line in f if line.strip()]`: the stripped lines, blank lines
      dropped. Every dish is non-empty and already stripped. */
  function CleanLines(lines: seq<string>): (dishes: seq<string>)
    ensures |dishes| <= |lines|
    ensures forall i :: 0 <= i < |dishes| ==> dishes[i] != [] && Strip(dishes[i]) == dishes[i]
    decreases |lines|
  {
    if lines == [] then
      []
    else
      var d := Strip(lines[0]);
      StripIdempotent(lines[0]);
      var rest := CleanLines(lines[1..]);
      if d == [] then rest else [d] + rest
  }

  /** A dish of the menu is exactly the stripped text of one of its non-blank lines. */
  lemma {:induction false} CleanLinesMembers(lines: seq<string>, dish: string)
    ensures dish in CleanLines(lines) <==> dish != [] && exists i :: 0 <= i < |lines| && Strip(lines[i]) == dish
    decreases |lines|
  {
    if lines != [] {
      CleanLinesMembers(lines[1..], dish);
      if exists i :: 0 <= i < |lines| && Strip(lines[i]) == dish {
        var i :| 0 <= i < |lines| && Strip(lines[i]) == dish;
        if i > 0 {
          assert Strip(lines[1..][i - 1]) == dish;
        }
      }
      if exists i :: 0 <= i < |lines| - 1 && Strip(lines[1..][i]) == dish {
        var i :| 0 <= i < |lines| - 1 && Strip(lines[1..][i]) == dish;
        assert Strip(lines[i + 1]) == dish;
      }
    }
  }

  /** Cleaning line by line: the dishes of two pieces of a file, in file order. */
  lemma {:induction false} CleanLinesConcat(a: seq<string>, b: seq<string>)
    ensures CleanLines(a + b) == CleanLines(a) + CleanLines(b)
    decreases |a|
  {
    if a != [] {
      assert (a + b)[1..] == a[1..] + b;
      assert (a + b)[0] == a[0];
      CleanLinesConcat(a[1..], b);
      if Strip(a[0]) != [] {
        assert CleanLines(a + b) == [Strip(a[0])] + CleanLines(a[1..] + b);
        assert CleanLines(a) == [Strip(a[0])] + CleanLines(a[1..]);
      }
    } else {
      assert a + b == b;
    }
  }

  /** `xs` is `ys` with some elements left out, the rest in their order. */
  predicate IsSubsequence(xs: seq<string>, ys: seq<string>)
    decreases |ys|
  {
    if xs == [] then true
    else if ys == [] then false
    else if xs[0] == ys[0] then IsSubsequence(xs[1..], ys[1..])
    else IsSubsequence(xs, ys[1..])
  }

  /** Whether a dish is excluded as equal to the previous recommendation
      (`p != anterior`): only a string slot can equal a dish. */
  predicate IsPrevious(previous: SlotValue, dish: string) {
    previous == Str(dish)
  }

  /** `[p for p in platos if p != anterior]`: the dishes in menu order with every copy
      of the previous recommendation removed and every other copy kept. */
  function WithoutPrevious(dishes: seq<string>, previous: SlotValue): (options: seq<string>)
    ensures IsSubsequence(options, dishes)
    ensures forall d :: d in options <==> d in dishes && !IsPrevious(previous, d)
    decreases |dishes|
  {
    if dishes == [] then
      []
    else
      var rest := WithoutPrevious(dishes[1..], previous);
      assert forall d :: d in dishes <==> d == dishes[0] || d in dishes[1..];
      if IsPrevious(previous, dishes[0]) then rest else [dishes[0]] + rest
  }

  /** Filtering keeps every other dish as often as the menu lists it and drops every
      copy of the previous recommendation. */
  lemma {:induction false} WithoutPreviousCounts(dishes: seq<string>, previous: SlotValue)
    ensures forall d :: multiset(WithoutPrevious(dishes, previous))[d] ==
                        (if IsPrevious(previous, d) then 0 else multiset(dishes)[d])
    decreases |dishes|
  {
    if dishes != [] {
      WithoutPreviousCounts(dishes[1..], previous);
      assert dishes == [dishes[0]] + dishes[1..];
      assert multiset(dishes) == multiset{dishes[0]} + multiset(dishes[1..]);
    }
  }

  /** `random.choice(options)` driven by `pick`: the pick is taken modulo the number of
      options, so the result is always an option and a pick below the count selects
      that position. */
  function Choose(options: seq<string>, pick: nat): (dish: string)
    requires options != []
    ensures dish in options
    ensures pick < |options| ==> dish == options[pick]
  {
    options[pick % |options|]
  }
}
