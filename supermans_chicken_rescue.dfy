/**
 * Input validation of the "Superman's chicken rescue" exercise: `Input::new`
 * checks a chicken count, a roof length and the chickens' positions, in a
 * fixed order, and returns the first failure or the three values unchanged.
 */
module SupermansChickenRescue {
  import opened Primitives
  import opened IterUnique

  const MAX_CHICKEN_NUM_LENGTH: usize := 1000000
  const MAX_ROOF_LENGTH: usize := 1000000
  const MAX_CHICKEN_POSITION: u32 := 1000000000

  datatype InputError =
    | ChickenNumNotMatch
    | ChickenNumOutOfRange
    | RoofLengthOutOfRange
    | ChickenPositionOutOfRange
    | ChickenPositionLengthOutOfRange
    | ChickenPositionNotUnique

  /** The validated input; its fields are private, so `New` is its only constructor. */
  datatype Input = Input(chickenNum: usize, roofLength: usize, chickenPositions: seq<u32>)

  predicate ChickenNumInRange(n: usize) { 1 <= n <= MAX_CHICKEN_NUM_LENGTH }

  predicate RoofLengthInRange(l: usize) { 1 <= l <= MAX_ROOF_LENGTH }

  predicate PositionInRange(p: u32) { 1 <= p <= MAX_CHICKEN_POSITION }

  /** `chicken_positions.iter().all(|p| (1..=MAX_CHICKEN_POSITION).contains(p))`. */
  predicate AllPositionsInRange(ps: seq<u32>) {
    forall p | p in ps :: PositionInRange(p)
  }

  /** The five conditions every `Input` built by `New` satisfies. */
  predicate Valid(input: Input) {
    && input.chickenNum == |input.chickenPositions|
    && ChickenNumInRange(input.chickenNum)
    && RoofLengthInRange(input.roofLength)
    && AllPositionsInRange(input.chickenPositions)
    && Distinct(input.chickenPositions)
  }

  /**
   * `Input::new`. Each guard applies only when the ones before it passed;
   * uniqueness is tested, as in the Rust `Input::new`, by comparing the number of
   * distinct positions with the number of positions.
   */
  function New(chickenNum: usize, roofLength: usize, chickenPositions: seq<u32>): (r: Result<Input, InputError>)
    // the count must match the length, whatever the other fields are
    ensures chickenNum != |chickenPositions| ==> r == Err(ChickenNumNotMatch)
    // a count out of range wins over a bad roof length or bad positions
    ensures chickenNum == |chickenPositions| && !ChickenNumInRange(chickenNum) ==>
              r == Err(ChickenNumOutOfRange)
    ensures chickenNum == |chickenPositions| && ChickenNumInRange(chickenNum) && !RoofLengthInRange(roofLength) ==>
              r == Err(RoofLengthOutOfRange)
    // a position out of range wins over duplicate positions
    ensures chickenNum == |chickenPositions| && ChickenNumInRange(chickenNum) && RoofLengthInRange(roofLength)
            && (exists i :: 0 <= i < |chickenPositions| && !PositionInRange(chickenPositions[i])) ==>
              r == Err(ChickenPositionOutOfRange)
    // duplicates are reported exactly when two indices hold the same position
    ensures chickenNum == |chickenPositions| && ChickenNumInRange(chickenNum) && RoofLengthInRange(roofLength)
            && (forall i :: 0 <= i < |chickenPositions| ==> PositionInRange(chickenPositions[i])) ==>
              (r == Err(ChickenPositionNotUnique) <==>
               exists i, j :: 0 <= i < j < |chickenPositions| && chickenPositions[i] == chickenPositions[j])
    ensures r.Ok? <==> Valid(Input(chickenNum, roofLength, chickenPositions))
    // the arguments are stored unchanged: not sorted, not deduplicated
    ensures r.Ok? ==> r.value == Input(chickenNum, roofLength, chickenPositions)
    ensures r.Ok? ==> |r.value.chickenPositions| >= 1
    ensures r != Err(ChickenPositionLengthOutOfRange)
  {
    UniqueLengthIffDistinct(chickenPositions);
    if chickenNum != |chickenPositions| then Err(ChickenNumNotMatch)
    else if !ChickenNumInRange(chickenNum) then Err(ChickenNumOutOfRange)
    else if !RoofLengthInRange(roofLength) then Err(RoofLengthOutOfRange)
    else if !AllPositionsInRange(chickenPositions) then Err(ChickenPositionOutOfRange)
    else if |Unique(chickenPositions)| != |chickenPositions| then Err(ChickenPositionNotUnique)
    else Ok(Input(chickenNum, roofLength, chickenPositions))
  }

  /** Every valid `Input` is what `New` builds from its own fields. */
  lemma NewAcceptsValid(input: Input)
    requires Valid(input)
    ensures New(input.chickenNum, input.roofLength, input.chickenPositions) == Ok(input)
  {
  }

  /** The count check comes before the roof check, with any positions of the right length. */
  lemma CountOutOfRangeBeforeRoof(chickenPositions: seq<u32>)
    requires |chickenPositions| == MAX_CHICKEN_NUM_LENGTH + 1
    ensures New(MAX_CHICKEN_NUM_LENGTH + 1, 0, chickenPositions) == Err(ChickenNumOutOfRange)
  {
  }

  /** The remaining unit tests of `Input::new`, one per error. */
  lemma UnitTests()
    ensures New(1, 1, []) == Err(ChickenNumNotMatch)
    ensures New(1, 0, [1]) == Err(RoofLengthOutOfRange)
    ensures New(2, 2, [0, MAX_CHICKEN_POSITION + 1]) == Err(ChickenPositionOutOfRange)
    ensures New(3, 2, [1, 2, 2]) == Err(ChickenPositionNotUnique)
  {
  }
}
