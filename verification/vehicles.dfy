/**
 * The two record types, `VehicleMake` and `VehicleModel`, and the rules
 * their data annotations impose.  `[Required]` rejects null and
 * whitespace-only strings; `[StringLength(max, MinimumLength = min)]`
 * accepts null and otherwise bounds the length.
 */
module Vehicles {
  import opened Nullable
  import opened Text

  /** A manufacturer. */
  datatype VehicleMake = VehicleMake(id: int, name: Option<string>, abrv: Option<string>)

  /** A vehicle model, carrying the make it references (the `Include(v => v.Make)` join). */
  datatype VehicleModel = VehicleModel(id: int, makeId: int, name: Option<string>, abrv: Option<string>, make: VehicleMake)

  /** `[Required]` on a string. */
  predicate Required(s: Option<string>) {
    s.Some? && !IsBlank(s.value)
  }

  /** `[StringLength(max, MinimumLength = min)]`. */
  predicate StringLength(s: Option<string>, max: int, min: int) {
    s.None? || min <= |s.value| <= max
  }

  /** The rule on both record types' `Name`: required, 2 to 100 characters. */
  predicate ValidName(name: Option<string>) {
    Required(name) && StringLength(name, 100, 2)
  }

  /** A make's `Abrv`: required, exactly 3 characters. */
  predicate ValidMakeAbrv(abrv: Option<string>) {
    Required(abrv) && StringLength(abrv, 3, 3)
  }

  /** A model's `Abrv`: required, no length bound. */
  predicate ValidModelAbrv(abrv: Option<string>) {
    Required(abrv)
  }

  predicate ValidMake(m: VehicleMake) {
    ValidName(m.name) && ValidMakeAbrv(m.abrv)
  }

  predicate ValidModel(m: VehicleModel) {
    ValidName(m.name) && ValidModelAbrv(m.abrv)
  }

  /** A present, non-blank name is valid exactly when it has 2 to 100 characters; null and blank names never are. */
  lemma NameRule(name: Option<string>)
    ensures name.None? ==> !ValidName(name)
    ensures name.Some? && IsBlank(name.value) ==> !ValidName(name)
    ensures name.Some? && !IsBlank(name.value) ==> (ValidName(name) <==> 2 <= |name.value| <= 100)
  {
  }

  /** Two spaces are long enough but blank, so they are not a valid name. */
  lemma BlankNameRejected()
    ensures !ValidName(Some("  "))
    ensures ValidName(Some("VW"))
  {
    assert "  "[0] == ' ' && IsWhiteSpace(' ');
    assert "VW"[0] == 'V' && !IsWhiteSpace('V');
  }

  /** A make abbreviation of any length but 3 is rejected, even when not blank. */
  lemma MakeAbrvExactlyThree(abrv: string)
    requires !IsBlank(abrv)
    ensures ValidMakeAbrv(Some(abrv)) <==> |abrv| == 3
  {
  }

  /** Every valid make abbreviation is a valid model abbreviation, but not the reverse. */
  lemma ModelAbrvRelaxesMakeAbrv(abrv: Option<string>)
    ensures ValidMakeAbrv(abrv) ==> ValidModelAbrv(abrv)
    ensures ValidModelAbrv(Some("ABCDE")) && !ValidMakeAbrv(Some("ABCDE"))
  {
    assert "ABCDE"[0] == 'A';
  }

  /** A model abbreviation has no upper bound: for every length there is a valid one. */
  lemma {:induction false} ModelAbrvUnbounded(n: nat)
    requires n >= 1
    ensures var abrv := seq(n, _ => 'X'); |abrv| == n && ValidModelAbrv(Some(abrv))
  {
    var abrv := seq(n, _ => 'X');
    assert abrv[0] == 'X' && !IsWhiteSpace('X');
  }

  /** Neither the key nor, for a model, the make reference takes part in validity. */
  lemma ValidityIgnoresKeys(make: VehicleMake, model: VehicleModel, id: int, makeId: int, other: VehicleMake)
    ensures ValidMake(make.(id := id)) == ValidMake(make)
    ensures ValidModel(model.(id := id, makeId := makeId, make := other)) == ValidModel(model)
  {
  }
}
