/** Binding of parameters to integer columns: Statement::setString, setNumber, convertNumber and setNull. */
module Statements {
  import opened Collections
  import opened NumericConverter
  import opened BoundText

  /** The input message: one value and one null flag for each descriptor. */
  class Statement {
    const inDescriptors: seq<Column>
    var values: seq<int>
    var nulls: seq<bool>

    /** What is stored for a column always fits its integer type. */
    ghost predicate Valid()
      reads this
    {
      && |values| == |nulls| == |inDescriptors|
      && forall i :: 0 <= i < |values| ==> Fits(values[i], inDescriptors[i].intType)
    }

    constructor (columns: seq<Column>)
      ensures Valid() && inDescriptors == columns
    {
      inDescriptors := columns;
      values := seq(|columns|, _ => 0);
      nulls := seq(|columns|, _ => false);
    }

    method SetNull(index: nat) returns (r: Result<(), BindError>)
      requires Valid()
      modifies this
      ensures Valid() && values == old(values)
      ensures index >= |inDescriptors| ==> r == Err(IndexOutOfRange) && nulls == old(nulls)
      ensures index < |inDescriptors| ==> r.Ok? && nulls == old(nulls)[index := true]
    {
      if index >= |inDescriptors| {
        return Err(IndexOutOfRange);
      }
      nulls := nulls[index := true];
      r := Ok(());
    }

    /** setNumber with convertNumber: the column is written only after the conversion has succeeded. */
    method SetNumber(index: nat, valueType: IntType, value: int, scale: int) returns (r: Result<(), BindError>)
      requires Valid() && Fits(value, valueType)
      modifies this
      ensures Valid()
      ensures index >= |inDescriptors| ==> r == Err(IndexOutOfRange)
      ensures index < |inDescriptors| ==>
        var column := inDescriptors[index];
        match Converted(value, scale, column.intType, column.scale)
        case Ok(v) => r.Ok? && values == old(values)[index := v] && nulls == old(nulls)[index := false]
        case Err(_) => r == Err(OutOfRange)
      ensures r.Err? ==> values == old(values) && nulls == old(nulls)
    {
      if index >= |inDescriptors| {
        return Err(IndexOutOfRange);
      }
      var column := inDescriptors[index];
      var converted := NumberToNumber(value, valueType, scale, column.intType, column.scale);
      ConversionIsConverted(converted, value, scale, column.intType, column.scale);
      if converted.Err? {
        return Err(OutOfRange);
      }
      values := values[index := converted.value];
      nulls := nulls[index := false];
      r := Ok(());
    }

    /** The integer branch of setString: BindText decides what is stored, and nothing else changes. */
    method SetString(index: nat, optValue: Option<string>) returns (r: Result<(), BindError>)
      requires Valid()
      modifies this
      ensures Valid()
      ensures index >= |inDescriptors| ==> r == Err(IndexOutOfRange)
      ensures index < |inDescriptors| && optValue.None? ==>
        r.Ok? && values == old(values) && nulls == old(nulls)[index := true]
      ensures index < |inDescriptors| && optValue.Some? ==>
        match BindText(optValue.value, inDescriptors[index])
        case Ok(v) => r.Ok? && values == old(values)[index := v] && nulls == old(nulls)[index := false]
        case Err(e) => r == Err(e)
      ensures r.Err? ==> values == old(values) && nulls == old(nulls)
    {
      if optValue.None? {
        r := SetNull(index);
        return;
      }
      if index >= |inDescriptors| {
        return Err(IndexOutOfRange);
      }
      var descriptor := inDescriptors[index];
      var strValue, scale := ScanText(optValue.value);
      var convResult := FromChars(strValue);
      if convResult.None? {
        return Err(ConversionError(strValue));
      }
      var scaled := convResult.value;
      ChainedIsOne(scaled, scale, descriptor.intType, descriptor.scale);
      if scale != descriptor.scale {
        var rescaled := NumberToNumber(scaled, Int64, scale, Int64, descriptor.scale);
        ConversionIsConverted(rescaled, scaled, scale, Int64, descriptor.scale);
        if rescaled.Err? {
          return Err(OutOfRange);
        }
        scaled, scale := rescaled.value, descriptor.scale;
      }
      r := SetNumber(index, Int64, scaled, scale);
    }
  }
}
