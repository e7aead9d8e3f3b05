/**
 * `main`: the meals chosen at the prompt are pinned and watched. The pinned
 * list is never empty, so the watch never reports completion: it ends by an
 * order or by the interrupt. This holds for `select_meals` as written and
 * for the selection as evidently intended.
 */
module Session {
  import opened Optional
  import opened Meals
  import opened Orders
  import opened Selection
  import opened Monitoring

  /** With `select_meals` as written, a session never reports that everything was ordered. */
  lemma SessionNeverCompletes(mapping: map<int, MealRecord>, inputs: seq<string>, chosen: seq<MealRecord>,
                              snapshots: seq<Option<seq<MealRecord>>>, server: nat -> Response,
                              canteenId: int, date: string)
    requires SelectFrom(mapping, inputs) == Selected(chosen)
    ensures chosen != []
    ensures RunSpec(Pinned(chosen), [], 0, snapshots, server, canteenId, date).outcome != Completed
  {
    SelectFromPriced(mapping, inputs, chosen);
    PinnedNeverCompletes(chosen, snapshots, server, canteenId, date);
  }

  /** With the selection as evidently intended, the same holds. */
  lemma IntendedSessionNeverCompletes(mapping: map<int, MealRecord>, inputs: seq<string>, chosen: seq<MealRecord>,
                                      snapshots: seq<Option<seq<MealRecord>>>, server: nat -> Response,
                                      canteenId: int, date: string)
    requires SelectIntended(mapping, inputs) == Selected(chosen)
    ensures chosen != []
    ensures RunSpec(Pinned(chosen), [], 0, snapshots, server, canteenId, date).outcome != Completed
  {
    var _ := SelectIntendedFromOneLine(mapping, inputs, chosen);
    PinnedNeverCompletes(chosen, snapshots, server, canteenId, date);
  }
}
