/** Configurable options (Option.java, ChoiceItem.java): a named, described
    value with an editor kind, a value class, optional bounds and choices.
    `H` is the type of heuristic objects an option may carry. */
module Options {
  import opened Common

  datatype OptionType = TextBox | Spinner | Dropdown

  /** The `Class<T>` an option declares for its value. */
  datatype ValueType = StringClass | IntegerClass | DoubleClass | ObjectClass

  /** A Java option value: a boxed Integer or Double, a String, a heuristic,
      a ChoiceItem(label, heuristic), or null. */
  datatype OptionValue<H> =
    | IntValue(i: Int32)
    | DoubleValue(d: real)
    | TextValue(t: string)
    | HeuristicValue(h: H)
    | ChoiceValue(choiceLabel: string, item: H)
    | Null

  datatype ConfigOption<H> = ConfigOption(
    name: string,
    description: string,
    kind: OptionType,
    valueType: ValueType,
    value: OptionValue<H>,
    minValue: OptionValue<H>,
    maxValue: OptionValue<H>,
    choices: Option<seq<OptionValue<H>>>)

  /** `(Integer) option.getValue()` unboxed into an `int` field. */
  function AsInt32<H>(v: OptionValue<H>): (r: Result<Int32>)
    ensures r.Ok? <==> v.IntValue?
    ensures r.Ok? ==> r.value == v.i
    ensures v.Null? ==> r == Err(NullPointer)
    ensures !v.IntValue? && !v.Null? ==> r == Err(ClassCast)
  {
    match v
    case IntValue(i) => Ok(i)
    case Null => Err(NullPointer)
    case _ => Err(ClassCast)
  }

  /** `(Double) option.getValue()` unboxed into a `double` field. */
  function AsReal<H>(v: OptionValue<H>): (r: Result<real>)
    ensures r.Ok? <==> v.DoubleValue?
    ensures r.Ok? ==> r.value == v.d
    ensures v.Null? ==> r == Err(NullPointer)
    ensures !v.DoubleValue? && !v.Null? ==> r == Err(ClassCast)
  {
    match v
    case DoubleValue(d) => Ok(d)
    case Null => Err(NullPointer)
    case _ => Err(ClassCast)
  }

  /** The state a `setOptions` loop reaches and how it ends. */
  datatype Applied<St> = Applied(state: St, outcome: Outcome)

  /** A `setOptions` loop: apply `options` in order; the first option that
      throws ends the loop, and the options before it stay applied. */
  function ApplyAll<St, H>(apply: (St, ConfigOption<H>) -> Result<St>, st: St, options: seq<ConfigOption<H>>): Applied<St>
    decreases |options|
  {
    if options == [] then Applied(st, Done)
    else
      match apply(st, options[0])
      case Err(e) => Applied(st, Failed(e))
      case Ok(next) => ApplyAll(apply, next, options[1..])
  }

  /** When whether an option is accepted depends on the option alone, the loop
      completes exactly when every option is accepted, and otherwise fails
      with the error of the first option that is not. */
  lemma ApplyAllOutcome<St, H>(apply: (St, ConfigOption<H>) -> Result<St>, accepts: ConfigOption<H> -> bool,
                               st: St, options: seq<ConfigOption<H>>)
    requires forall s: St, o: ConfigOption<H> :: apply(s, o).Ok? <==> accepts(o)
    ensures ApplyAll(apply, st, options).outcome.Done? <==> forall k :: 0 <= k < |options| ==> accepts(options[k])
    ensures ApplyAll(apply, st, options).outcome.Failed? ==>
      exists k :: 0 <= k < |options| && !accepts(options[k]) && (forall j :: 0 <= j < k ==> accepts(options[j]))
        && ApplyAll(apply, st, options).outcome.error == apply(ApplyAll(apply, st, options).state, options[k]).error
  {
    ApplyAllDone(apply, accepts, st, options);
    ApplyAllFailure(apply, accepts, st, options);
  }

  lemma {:induction false} ApplyAllDone<St, H>(apply: (St, ConfigOption<H>) -> Result<St>, accepts: ConfigOption<H> -> bool,
                                               st: St, options: seq<ConfigOption<H>>)
    requires forall s: St, o: ConfigOption<H> :: apply(s, o).Ok? <==> accepts(o)
    ensures ApplyAll(apply, st, options).outcome.Done? <==> forall k :: 0 <= k < |options| ==> accepts(options[k])
    decreases |options|
  {
    if options != [] {
      match apply(st, options[0])
      case Err(e) =>
        assert !accepts(options[0]);
      case Ok(next) =>
        ApplyAllDone(apply, accepts, next, options[1..]);
        assert forall k :: 1 <= k < |options| ==> options[k] == options[1..][k - 1];
    }
  }

  lemma {:induction false} ApplyAllFailure<St, H>(apply: (St, ConfigOption<H>) -> Result<St>, accepts: ConfigOption<H> -> bool,
                                                  st: St, options: seq<ConfigOption<H>>)
    requires forall s: St, o: ConfigOption<H> :: apply(s, o).Ok? <==> accepts(o)
    ensures ApplyAll(apply, st, options).outcome.Failed? ==>
      exists k :: 0 <= k < |options| && !accepts(options[k]) && (forall j :: 0 <= j < k ==> accepts(options[j]))
        && ApplyAll(apply, st, options).outcome.error == apply(ApplyAll(apply, st, options).state, options[k]).error
    decreases |options|
  {
    if options != [] {
      match apply(st, options[0])
      case Err(e) =>
        assert !accepts(options[0]);
      case Ok(next) =>
        ApplyAllFailure(apply, accepts, next, options[1..]);
        if ApplyAll(apply, next, options[1..]).outcome.Failed? {
          var k :| 0 <= k < |options[1..]| && !accepts(options[1..][k]) && (forall j :: 0 <= j < k ==> accepts(options[1..][j]))
            && ApplyAll(apply, next, options[1..]).outcome.error == apply(ApplyAll(apply, next, options[1..]).state, options[1..][k]).error;
          assert forall j :: 0 <= j < k + 1 ==> accepts(options[j]) by {
            assert forall j :: 1 <= j < k + 1 ==> options[j] == options[1..][j - 1];
          }
          assert options[k + 1] == options[1..][k];
        }
    }
  }

}
