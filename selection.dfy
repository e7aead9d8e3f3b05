/**
 * Choosing the meals to watch: `display_meals` numbers the parsed meals
 * from 1, and `select_meals` reads comma-separated numbers from the console
 * until a line names only listed meals. The console is modelled as the
 * sequence of lines the operator enters.
 */
module Selection {
  import opened Optional
  import opened Text
  import opened Meals

  /**
   * `display_meals`: numbers the meals 1..n in list order. An empty list
   * prints a warning and returns None.
   */
  method DisplayMeals(meals: seq<MealRecord>) returns (mapping: Option<map<int, MealRecord>>)
    ensures mapping.None? <==> meals == []
    ensures mapping.Some? ==> forall i :: i in mapping.value <==> 1 <= i <= |meals|
    ensures mapping.Some? ==> forall i :: 1 <= i <= |meals| ==> mapping.value[i] == meals[i - 1]
  {
    if meals == [] {
      return None;
    }
    var numbered: map<int, MealRecord> := map[];
    var index := 1;
    for n := 0 to |meals|
      invariant index == n + 1
      invariant forall i :: i in numbered <==> 1 <= i < index
      invariant forall i :: 1 <= i < index ==> numbered[i] == meals[i - 1]
    {
      numbered := numbered[index := meals[n]];
      index := index + 1;
    }
    return Some(numbered);
  }

  /** `int(idx.strip())`: None for the `ValueError`. */
  function ParsePart(part: string): Option<int>
  {
    ParseInt(Strip(part))
  }

  /** `[int(idx.strip()) for idx in parts]`: None when some part is not an integer. */
  function ParseAll(parts: seq<string>): Option<seq<int>>
  {
    if parts == [] then Some([])
    else match (ParsePart(parts[0]), ParseAll(parts[1..]))
      case (Some(i), Some(rest)) => Some([i] + rest)
      case _ => None
  }

  /** Every part, once stripped, is an integer. */
  predicate AllParse(parts: seq<string>)
  {
    forall k :: 0 <= k < |parts| ==> ParsePart(parts[k]).Some?
  }

  /** `v` holds the integers of the parts, one per part, in order. */
  predicate ParsedAs(parts: seq<string>, v: seq<int>)
  {
    |v| == |parts| && forall k :: 0 <= k < |parts| ==> ParsePart(parts[k]) == Some(v[k])
  }

  lemma AllParseCons(parts: seq<string>)
    requires parts != []
    ensures AllParse(parts) <==> ParsePart(parts[0]).Some? && AllParse(parts[1..])
  {
    if ParsePart(parts[0]).Some? && AllParse(parts[1..]) {
      forall k | 1 <= k < |parts|
        ensures ParsePart(parts[k]).Some?
      {
        assert parts[k] == parts[1..][k - 1];
      }
    }
  }

  lemma ConsAt<T, U>(xs: seq<T>, y: U, ys: seq<U>, k: nat)
    requires xs != [] && 1 + |ys| == |xs| && k < |xs|
    ensures ([y] + ys)[k] == if k == 0 then y else ys[k - 1]
    ensures k > 0 ==> xs[k] == xs[1..][k - 1]
  {
  }

  lemma ParsedAsCons(parts: seq<string>, x: int, v: seq<int>)
    requires parts != [] && ParsePart(parts[0]) == Some(x) && ParsedAs(parts[1..], v)
    ensures ParsedAs(parts, [x] + v)
  {
    forall k | 0 <= k < |parts|
      ensures ParsePart(parts[k]) == Some(([x] + v)[k])
    {
      ConsAt(parts, x, v, k);
    }
  }

  /** The list comprehension succeeds exactly when every part is an integer, and keeps them in order. */
  lemma {:induction false} ParseAllParts(parts: seq<string>)
    ensures ParseAll(parts).Some? <==> AllParse(parts)
    ensures ParseAll(parts).Some? ==> ParsedAs(parts, ParseAll(parts).value)
  {
    if parts != [] {
      ParseAllParts(parts[1..]);
      AllParseCons(parts);
      var head := ParsePart(parts[0]);
      var tail := ParseAll(parts[1..]);
      if head.Some? && tail.Some? {
        ParsedAsCons(parts, head.value, tail.value);
      }
    }
  }

  /** The numbers entered on one (stripped) line, split at commas. */
  function ParseIndices(line: string): Option<seq<int>>
  {
    ParseAll(Split(line, ','))
  }

  function Render(idxs: seq<int>): seq<string>
  {
    seq(|idxs|, k requires 0 <= k < |idxs| => IntToString(idxs[k]))
  }

  lemma IntToStringNoComma(i: int)
    ensures ',' !in IntToString(i)
    ensures IntToString(i) != [] && IntToString(i)[0] !in Whitespace
    ensures IntToString(i)[|IntToString(i)| - 1] !in Whitespace
  {
    var s := IntToString(i);
    var digits := NatToString(if i < 0 then -i else i);
    assert forall k :: 0 <= k < |digits| ==> IsDigit(digits[k]);
    if i < 0 {
      assert s == "-" + digits;
      assert forall k :: 1 <= k < |s| ==> s[k] == digits[k - 1];
    }
  }

  /** One rendered number has no comma and reads back as itself. */
  lemma RenderPart(i: int)
    ensures ',' !in IntToString(i) && ParsePart(IntToString(i)) == Some(i)
  {
    IntToStringNoComma(i);
    StripCharsUnchanged(IntToString(i), Whitespace);
    ParseIntToString(i);
  }

  /** The parts determine what they parse as. */
  lemma ParsedAsUnique(parts: seq<string>, v: seq<int>, w: seq<int>)
    requires ParsedAs(parts, v) && ParsedAs(parts, w)
    ensures AllParse(parts) && v == w
  {
    forall k | 0 <= k < |v|
      ensures v[k] == w[k]
    {
      assert Some(v[k]) == ParsePart(parts[k]) == Some(w[k]);
    }
  }

  /** Entering the numbers joined by commas reads them back: the line format round-trips. */
  lemma ParseIndicesRender(idxs: seq<int>)
    requires idxs != []
    ensures ParseIndices(Join(Render(idxs), ',')) == Some(idxs)
  {
    var parts := Render(idxs);
    forall k | 0 <= k < |parts|
      ensures ',' !in parts[k] && ParsePart(parts[k]) == Some(idxs[k])
    {
      RenderPart(idxs[k]);
    }
    SplitJoin(parts, ',');
    ParseAllParts(parts);
    ParsedAsUnique(parts, idxs, idxs);
    ParsedAsUnique(parts, ParseAll(parts).value, idxs);
  }

  /**
   * The inner `for idx in selected_indices` loop, all or nothing: the listed
   * meals in the order entered (duplicates kept) when every number is
   * listed, and None as soon as one is not.
   */
  function Lookup(mapping: map<int, MealRecord>, idxs: seq<int>): (r: Option<seq<MealRecord>>)
    ensures r.Some? <==> forall k :: 0 <= k < |idxs| ==> idxs[k] in mapping
    ensures r.Some? ==>
      |r.value| == |idxs| && forall k :: 0 <= k < |idxs| ==> idxs[k] in mapping && r.value[k] == mapping[idxs[k]]
  {
    if idxs == [] then Some([])
    else
      var last := idxs[|idxs| - 1];
      match Lookup(mapping, idxs[..|idxs| - 1])
      case None => None
      case Some(ms) => if last in mapping then Some(ms + [mapping[last]]) else None
  }

  /** Some selected meal has a price, so the highest-price warning can be computed. */
  predicate HasPrice(meals: seq<MealRecord>)
  {
    exists k :: 0 <= k < |meals| && meals[k].price != NotApplicable
  }

  /** How the selection ends: meals chosen, an empty line (exit), or no more input. */
  datatype SelectOutcome = Selected(meals: seq<MealRecord>) | Ended | NoMoreInput

  /** One line entered at the prompt, once stripped and split: blank, not integers, or numbers. */
  datatype Entry = Blank | Unreadable | Numbers(idxs: seq<int>)

  /** Reading one console line: `input().strip()`, then the list comprehension over its comma-separated parts. */
  function Read(line: string): Entry
  {
    var t := Strip(line);
    if t == [] then Blank
    else match ParseIndices(t)
      case None => Unreadable
      case Some(idxs) => Numbers(idxs)
  }

  function ReadAll(inputs: seq<string>): (entries: seq<Entry>)
    ensures |entries| == |inputs|
    ensures forall k :: 0 <= k < |inputs| ==> entries[k] == Read(inputs[k])
  {
    seq(|inputs|, k requires 0 <= k < |inputs| => Read(inputs[k]))
  }

  /** A line of numbers names at least one number (splitting never gives zero parts). */
  lemma ReadNonEmpty(line: string)
    requires Read(line).Numbers?
    ensures Read(line).idxs != []
  {
    ParseAllParts(Split(Strip(line), ','));
  }

  /** What one prompt does: exit, ask again carrying a selection, or return the selection. */
  datatype Step = Exit | Retry(carried: seq<MealRecord>) | Done(chosen: seq<MealRecord>)

  /** The selection after one line of numbers, starting from `selected`. */
  function AfterLine(mapping: map<int, MealRecord>, selected: seq<MealRecord>, idxs: seq<int>): seq<MealRecord>
  {
    match Lookup(mapping, idxs)
    case Some(ms) => selected + ms
    case None => []
  }

  /**
   * One pass of the `while True` body of `select_meals` as written: a blank
   * line exits, a line that is not all integers asks again, a listed
   * selection with a price is returned, and a listed selection without any
   * price raises the caught `ValueError` of `max([])` and asks again without
   * clearing it.
   */
  function LineStep(mapping: map<int, MealRecord>, entry: Entry, selected: seq<MealRecord>): Step
  {
    match entry
    case Blank => Exit
    case Unreadable => Retry(selected)
    case Numbers(idxs) =>
      var next := AfterLine(mapping, selected, idxs);
      if next != [] && HasPrice(next) then Done(next) else Retry(next)
  }

  /** `select_meals` as written, over the entries still to come and the selection carried so far. */
  function SelectEntries(mapping: map<int, MealRecord>, entries: seq<Entry>, selected: seq<MealRecord>): SelectOutcome
    decreases |entries|
  {
    if entries == [] then NoMoreInput
    else match LineStep(mapping, entries[0], selected)
      case Exit => Ended
      case Done(ms) => Selected(ms)
      case Retry(carried) => SelectEntries(mapping, entries[1..], carried)
  }

  /** `select_meals` as written, over the lines the operator enters. */
  function SelectFrom(mapping: map<int, MealRecord>, inputs: seq<string>): SelectOutcome
  {
    SelectEntries(mapping, ReadAll(inputs), [])
  }

  /**
   * What the as-written loop returns is never empty and holds a meal with a
   * price: only the `return` after a successful `max` produces a selection.
   */
  lemma {:induction false} SelectedEntriesPriced(mapping: map<int, MealRecord>, entries: seq<Entry>,
                                                 selected: seq<MealRecord>, ms: seq<MealRecord>)
    requires SelectEntries(mapping, entries, selected) == Selected(ms)
    ensures ms != [] && HasPrice(ms)
    decreases |entries|
  {
    var step := LineStep(mapping, entries[0], selected);
    if step.Retry? {
      SelectedEntriesPriced(mapping, entries[1..], step.carried, ms);
    }
  }

  /** The as-written `select_meals` returns a non-empty selection with a priced meal. */
  lemma SelectFromPriced(mapping: map<int, MealRecord>, inputs: seq<string>, ms: seq<MealRecord>)
    requires SelectFrom(mapping, inputs) == Selected(ms)
    ensures ms != [] && HasPrice(ms)
  {
    SelectedEntriesPriced(mapping, ReadAll(inputs), [], ms);
  }

  /** The `for idx in selected_indices` loop, appending to `selected` or clearing it. */
  method ApplyLine(mapping: map<int, MealRecord>, selected: seq<MealRecord>, idxs: seq<int>)
    returns (next: seq<MealRecord>)
    ensures next == AfterLine(mapping, selected, idxs)
  {
    next := selected;
    var j := 0;
    while j < |idxs|
      invariant 0 <= j <= |idxs|
      invariant Lookup(mapping, idxs[..j]).Some?
      invariant next == selected + Lookup(mapping, idxs[..j]).value
    {
      assert idxs[..j + 1][..j] == idxs[..j];
      if idxs[j] !in mapping {
        return [];
      }
      next := next + [mapping[idxs[j]]];
      j := j + 1;
    }
    assert idxs[..j] == idxs;
  }

  /** `select_meals`: prompts until a selection is made or the operator leaves. */
  method SelectMeals(mapping: map<int, MealRecord>, inputs: seq<string>) returns (outcome: SelectOutcome)
    ensures outcome == SelectFrom(mapping, inputs)
  {
    ghost var entries := ReadAll(inputs);
    var selected: seq<MealRecord> := [];
    var n := 0;
    while n < |inputs|
      invariant 0 <= n <= |inputs|
      invariant SelectEntries(mapping, entries[n..], selected) == SelectFrom(mapping, inputs)
    {
      DropOne(entries, n);
      assert entries[n] == Read(inputs[n]);
      ReadStep(mapping, inputs[n], entries[n + 1..], selected);
      var line := Strip(inputs[n]);
      if line == [] {
        return Ended;
      }
      var parsed := ParseIndices(line);
      if parsed.Some? {
        selected := ApplyLine(mapping, selected, parsed.value);
        if selected != [] && HasPrice(selected) {
          return Selected(selected);
        }
      }
      n := n + 1;
    }
    assert entries[n..] == [];
    return NoMoreInput;
  }

  lemma DropOne<T>(xs: seq<T>, n: nat)
    requires n < |xs|
    ensures xs[n..] == [xs[n]] + xs[n + 1..]
  {
  }

  /** One prompt of the as-written loop, stated on the raw console line. */
  lemma ReadStep(mapping: map<int, MealRecord>, line: string, rest: seq<Entry>, selected: seq<MealRecord>)
    ensures SelectEntries(mapping, [Read(line)] + rest, selected) ==
      if Strip(line) == [] then Ended
      else if ParseIndices(Strip(line)).None? then SelectEntries(mapping, rest, selected)
      else
        var next := AfterLine(mapping, selected, ParseIndices(Strip(line)).value);
        if next != [] && HasPrice(next) then Selected(next) else SelectEntries(mapping, rest, next)
  {
    SelectEntriesCons(mapping, Read(line), rest, selected);
  }

  lemma SelectEntriesCons(mapping: map<int, MealRecord>, entry: Entry, rest: seq<Entry>, selected: seq<MealRecord>)
    ensures var step := LineStep(mapping, entry, selected);
      SelectEntries(mapping, [entry] + rest, selected) ==
        if step.Exit? then Ended
        else if step.Done? then Selected(step.chosen)
        else SelectEntries(mapping, rest, step.carried)
  {
    assert ([entry] + rest)[0] == entry && ([entry] + rest)[1..] == rest;
  }

  /** A blank (or all-whitespace) line reads as blank, and ends the session whatever was selected before. */
  lemma BlankLineEnds(mapping: map<int, MealRecord>, line: string, rest: seq<Entry>, selected: seq<MealRecord>)
    requires forall k :: 0 <= k < |line| ==> line[k] in Whitespace
    ensures Read(line) == Blank
    ensures SelectEntries(mapping, [Read(line)] + rest, selected) == Ended
  {
    var l := TrimLeft(line, Whitespace);
    assert l == [];
    SelectEntriesCons(mapping, Read(line), rest, selected);
  }

  /**
   * A first line whose numbers are all listed selects exactly those meals,
   * in the order entered with duplicates kept, provided one of them has a
   * price.
   */
  lemma FirstLineSelects(mapping: map<int, MealRecord>, idxs: seq<int>, rest: seq<Entry>)
    requires forall k :: 0 <= k < |idxs| ==> idxs[k] in mapping
    requires exists k :: 0 <= k < |idxs| && mapping[idxs[k]].price != NotApplicable
    ensures Lookup(mapping, idxs).Some?
    ensures SelectEntries(mapping, [Numbers(idxs)] + rest, []) == Selected(Lookup(mapping, idxs).value)
  {
    var ms := Lookup(mapping, idxs).value;
    var k :| 0 <= k < |idxs| && mapping[idxs[k]].price != NotApplicable;
    assert ms[k].price != NotApplicable;
    assert AfterLine(mapping, [], idxs) == ms by {
      assert [] + ms == ms;
    }
    assert ms != [] && HasPrice(ms);
    LineStepDone(mapping, Numbers(idxs), []);
    SelectEntriesCons(mapping, Numbers(idxs), rest, []);
  }

  lemma LineStepDone(mapping: map<int, MealRecord>, entry: Entry, selected: seq<MealRecord>)
    requires entry.Numbers?
    requires AfterLine(mapping, selected, entry.idxs) != [] && HasPrice(AfterLine(mapping, selected, entry.idxs))
    ensures LineStep(mapping, entry, selected) == Done(AfterLine(mapping, selected, entry.idxs))
  {
  }

  /**
   * A line naming any unlisted number discards the whole selection, even
   * the meals carried from an earlier prompt, and the operator is asked again.
   */
  lemma InvalidIndexDiscards(mapping: map<int, MealRecord>, idxs: seq<int>, rest: seq<Entry>,
                             selected: seq<MealRecord>, k: nat)
    requires k < |idxs| && idxs[k] !in mapping
    ensures SelectEntries(mapping, [Numbers(idxs)] + rest, selected) == SelectEntries(mapping, rest, [])
  {
    SelectEntriesCons(mapping, Numbers(idxs), rest, selected);
  }

  /** A line that is not a list of integers is ignored: the selection so far is kept. */
  lemma UnreadableLineIgnored(mapping: map<int, MealRecord>, rest: seq<Entry>, selected: seq<MealRecord>)
    ensures SelectEntries(mapping, [Unreadable] + rest, selected) == SelectEntries(mapping, rest, selected)
  {
    SelectEntriesCons(mapping, Unreadable, rest, selected);
  }

  /** A line holding one digit reads as that number. */
  lemma OneDigitLine(i: nat)
    requires 1 <= i <= 9
    ensures Read([DigitChar(i)]) == Numbers([i])
  {
    var line: string := [DigitChar(i)];
    StripCharsUnchanged(line, Whitespace);
    assert IndexOf(line, ',') == None;
    assert Split(line, ',') == [line];
    assert line[..0] == [];
    assert DigitsValue(line) == i;
    assert ParsePart(line) == Some(i);
    var parts: seq<string> := [line];
    assert parts[1..] == [];
    assert ParseAll(parts[1..]) == Some([]);
    assert [i] + [] == [i];
    assert ParseAll(parts) == Some([i]);
  }

  /** The console line "1" reads as the number 1, and "2" as 2. */
  lemma ReadOneAndTwo()
    ensures Read("1") == Numbers([1]) && Read("2") == Numbers([2])
  {
    OneDigitLine(1);
    assert "1" == [DigitChar(1)];
    OneDigitLine(2);
    assert "2" == [DigitChar(2)];
  }

  /**
   * As written, a selection whose meals have no price is kept across the
   * re-prompt: entering "1" for a meal without a price and then "2" (read
   * as shown by `ReadOneAndTwo`) returns both meals, although the second
   * line named only the second meal.
   */
  lemma StaleSelectionKept(m1: MealRecord, m2: MealRecord)
    requires m1.price == NotApplicable && m2.price != NotApplicable
    ensures Lookup(map[1 := m1, 2 := m2], [2]) == Some([m2])
    ensures SelectEntries(map[1 := m1, 2 := m2], [Numbers([1]), Numbers([2])], []) == Selected([m1, m2])
  {
    var mapping := map[1 := m1, 2 := m2];
    var l1 := Lookup(mapping, [1]);
    assert l1.Some? && |l1.value| == 1 && l1.value[0] == m1;
    assert l1.value == [m1];
    var l2 := Lookup(mapping, [2]);
    assert l2.Some? && |l2.value| == 1 && l2.value[0] == m2;
    assert l2.value == [m2];
    assert AfterLine(mapping, [], [1]) == [m1];
    assert !HasPrice([m1]);
    assert LineStep(mapping, Numbers([1]), []) == Retry([m1]);
    assert [m1, m2][1].price != NotApplicable;
    assert AfterLine(mapping, [m1], [2]) == [m1, m2];
    assert LineStep(mapping, Numbers([2]), [m1]) == Done([m1, m2]);
    SelectEntriesCons(mapping, Numbers([1]), [Numbers([2])], []);
    SelectEntriesCons(mapping, Numbers([2]), [], [m1]);
    assert [Numbers([1])] + [Numbers([2])] == [Numbers([1]), Numbers([2])];
  }

  /** The meals one entry names, when it names only listed meals. */
  function EntrySelection(mapping: map<int, MealRecord>, entry: Entry): Option<seq<MealRecord>>
  {
    match entry
    case Numbers(idxs) => Lookup(mapping, idxs)
    case _ => None
  }

  /**
   * `select_meals` as evidently intended, over the entries: each prompt
   * starts from an empty selection, and a line naming only listed meals is
   * returned whether or not any of them has a price.
   */
  function SelectIntendedEntries(mapping: map<int, MealRecord>, entries: seq<Entry>): SelectOutcome
    decreases |entries|
  {
    if entries == [] then NoMoreInput
    else if entries[0] == Blank then Ended
    else match EntrySelection(mapping, entries[0])
      case Some(ms) => Selected(ms)
      case None => SelectIntendedEntries(mapping, entries[1..])
  }

  /** `select_meals` as evidently intended, over the lines the operator enters. */
  function SelectIntended(mapping: map<int, MealRecord>, inputs: seq<string>): SelectOutcome
  {
    SelectIntendedEntries(mapping, ReadAll(inputs))
  }

  /** Every line of numbers names at least one number. */
  predicate NumbersNonEmpty(entries: seq<Entry>)
  {
    forall k :: 0 <= k < |entries| && entries[k].Numbers? ==> entries[k].idxs != []
  }

  lemma ReadAllNonEmpty(inputs: seq<string>)
    ensures NumbersNonEmpty(ReadAll(inputs))
  {
    forall k | 0 <= k < |inputs| && ReadAll(inputs)[k].Numbers?
      ensures ReadAll(inputs)[k].idxs != []
    {
      ReadNonEmpty(inputs[k]);
    }
  }

  lemma {:induction false} IntendedFromOneEntry(mapping: map<int, MealRecord>, entries: seq<Entry>, ms: seq<MealRecord>)
    returns (j: nat)
    requires NumbersNonEmpty(entries)
    requires SelectIntendedEntries(mapping, entries) == Selected(ms)
    ensures j < |entries| && EntrySelection(mapping, entries[j]) == Some(ms) && ms != []
    ensures forall k :: 0 <= k < j ==> entries[k] != Blank && EntrySelection(mapping, entries[k]).None?
    decreases |entries|
  {
    if EntrySelection(mapping, entries[0]).Some? {
      j := 0;
    } else {
      assert NumbersNonEmpty(entries[1..]) by {
        assert forall k :: 0 <= k < |entries[1..]| ==> entries[1..][k] == entries[k + 1];
      }
      var j' := IntendedFromOneEntry(mapping, entries[1..], ms);
      j := j' + 1;
      assert forall k :: 1 <= k <= j' ==> entries[k] == entries[1..][k - 1];
    }
  }

  /**
   * The intended selection is exactly the meals named by one entered line,
   * in the order entered, and is never empty; every line before it was
   * neither blank nor a valid selection.
   */
  lemma SelectIntendedFromOneLine(mapping: map<int, MealRecord>, inputs: seq<string>, ms: seq<MealRecord>)
    returns (j: nat)
    requires SelectIntended(mapping, inputs) == Selected(ms)
    ensures j < |inputs| && EntrySelection(mapping, Read(inputs[j])) == Some(ms) && ms != []
    ensures forall k :: 0 <= k < j ==> Read(inputs[k]) != Blank && EntrySelection(mapping, Read(inputs[k])).None?
  {
    ReadAllNonEmpty(inputs);
    j := IntendedFromOneEntry(mapping, ReadAll(inputs), ms);
  }

  predicate AllPriced(mapping: map<int, MealRecord>)
  {
    forall i :: i in mapping ==> mapping[i].price != NotApplicable
  }

  lemma StepWhenPriced(mapping: map<int, MealRecord>, entry: Entry)
    requires AllPriced(mapping)
    requires entry.Numbers? ==> entry.idxs != []
    ensures var step := LineStep(mapping, entry, []);
      && (step.Exit? <==> entry == Blank)
      && (step.Done? <==> EntrySelection(mapping, entry).Some?)
      && (step.Done? ==> Some(step.chosen) == EntrySelection(mapping, entry))
      && (step.Retry? ==> step.carried == [])
  {
    if entry.Numbers? && Lookup(mapping, entry.idxs).Some? {
      var ms := Lookup(mapping, entry.idxs).value;
      var i0 := entry.idxs[0];
      assert i0 in mapping && ms[0] == mapping[i0];
      assert mapping[i0].price != NotApplicable;
      assert [] + ms == ms;
    }
  }

  lemma {:induction false} AsWrittenWhenPricedEntries(mapping: map<int, MealRecord>, entries: seq<Entry>)
    requires AllPriced(mapping) && NumbersNonEmpty(entries)
    ensures SelectEntries(mapping, entries, []) == SelectIntendedEntries(mapping, entries)
    decreases |entries|
  {
    if entries != [] {
      StepWhenPriced(mapping, entries[0]);
      assert NumbersNonEmpty(entries[1..]) by {
        assert forall k :: 0 <= k < |entries[1..]| ==> entries[1..][k] == entries[k + 1];
      }
      AsWrittenWhenPricedEntries(mapping, entries[1..]);
    }
  }

  /** When every listed meal has a price, the script as written behaves as intended. */
  lemma AsWrittenWhenPriced(mapping: map<int, MealRecord>, inputs: seq<string>)
    requires AllPriced(mapping)
    ensures SelectFrom(mapping, inputs) == SelectIntended(mapping, inputs)
  {
    ReadAllNonEmpty(inputs);
    AsWrittenWhenPricedEntries(mapping, ReadAll(inputs));
  }
}
