/**
 Message formats of a ULog file and the byte offset of a named field inside
 a message of that format (`find_field_offset` in pyulog/utils.py).
 */
module Formats {
  import opened Wrappers
  import opened Stream

  /**
   One field of a message format: its type token, its array length and its
   name. An array length of 0 stands for every falsy value the source accepts
   (0, None, ""): such a field counts once. Padding fields have a blank name.
   */
  datatype FormatField = FormatField(dataType: string, arrayLength: int, name: string)

  datatype MessageFormat = MessageFormat(name: string, fields: seq<FormatField>)

  /** `ULog.get_field_size` as a partial map from type token to byte size. */
  type SizeTable = map<string, nat>

  function Multiplicity(arrayLength: int): int {
    if arrayLength != 0 then arrayLength else 1
  }

  /** Bytes a field occupies in a message. */
  function Span(f: FormatField, sizes: SizeTable): int
    requires f.dataType in sizes
  {
    sizes[f.dataType] * Multiplicity(f.arrayLength)
  }

  /**
   The offset of the field named `target`: walks the fields in order, skips
   blank names, stops at the target, and otherwise adds the field's span,
   raising when a type has no known size.
   */
  function FindFieldOffset(format: MessageFormat, target: string, sizes: SizeTable): Result<int, ScanError> {
    OffsetFrom(format.fields, target, sizes, 0)
  }

  function OffsetFrom(fields: seq<FormatField>, target: string, sizes: SizeTable, offset: int): Result<int, ScanError>
    decreases |fields|
  {
    if |fields| == 0 then Err(FieldNotFound(target))
    else
      var f := fields[0];
      if f.name == "" then OffsetFrom(fields[1..], target, sizes, offset)
      else if f.name == target then Ok(offset)
      else if f.dataType !in sizes then Err(UnknownDataType(f.dataType))
      else OffsetFrom(fields[1..], target, sizes, offset + Span(f, sizes))
  }

  // ---------------------------------------------------------------------
  // Reference description of the outcome
  // ---------------------------------------------------------------------

  /** The walk ends at a named field that is the target or whose size is unknown. */
  predicate StopsAt(f: FormatField, target: string, sizes: SizeTable) {
    f.name != "" && (f.name == target || f.dataType !in sizes)
  }

  /** `k` is the first field where the walk ends (`|fields|` when none). */
  predicate IsFirstStop(fields: seq<FormatField>, target: string, sizes: SizeTable, k: int) {
    && 0 <= k <= |fields|
    && (k < |fields| ==> StopsAt(fields[k], target, sizes))
    && forall j :: 0 <= j < k ==> !StopsAt(fields[j], target, sizes)
  }

  /** Every named field has a known size. */
  predicate KnownSizes(fields: seq<FormatField>, sizes: SizeTable) {
    forall j :: 0 <= j < |fields| && fields[j].name != "" ==> fields[j].dataType in sizes
  }

  /** Total span of the named fields; blank fields add nothing. */
  function SumOfSpans(fields: seq<FormatField>, sizes: SizeTable): int
    requires KnownSizes(fields, sizes)
  {
    if |fields| == 0 then 0
    else (if fields[0].name == "" then 0 else Span(fields[0], sizes)) + SumOfSpans(fields[1..], sizes)
  }

  /** What the walk yields when it first ends at `k`. */
  function OutcomeAt(fields: seq<FormatField>, target: string, sizes: SizeTable, k: int): Result<int, ScanError>
    requires IsFirstStop(fields, target, sizes, k)
  {
    assert KnownSizes(fields[..k], sizes);
    if k == |fields| then Err(FieldNotFound(target))
    else if fields[k].name == target then Ok(SumOfSpans(fields[..k], sizes))
    else Err(UnknownDataType(fields[k].dataType))
  }

  lemma FirstStopExists(fields: seq<FormatField>, target: string, sizes: SizeTable)
    ensures exists k :: IsFirstStop(fields, target, sizes, k)
  {
    var k := 0;
    while k < |fields| && !StopsAt(fields[k], target, sizes)
      invariant 0 <= k <= |fields|
      invariant forall j :: 0 <= j < k ==> !StopsAt(fields[j], target, sizes)
    {
      k := k + 1;
    }
    assert IsFirstStop(fields, target, sizes, k);
  }

  lemma {:induction false} OffsetFromAt(fields: seq<FormatField>, target: string, sizes: SizeTable, offset: int, k: int)
    requires IsFirstStop(fields, target, sizes, k)
    ensures var o := OutcomeAt(fields, target, sizes, k);
            OffsetFrom(fields, target, sizes, offset) == if o.Ok? then Ok(offset + o.value) else o
    decreases |fields|
  {
    if k > 0 {
      var f := fields[0];
      assert !StopsAt(f, target, sizes);
      assert IsFirstStop(fields[1..], target, sizes, k - 1) by {
        forall j | 0 <= j < k - 1
          ensures !StopsAt(fields[1..][j], target, sizes)
        {
          assert fields[1..][j] == fields[j + 1];
        }
      }
      assert fields[..k][1..] == fields[1..][..k - 1];
      assert KnownSizes(fields[..k], sizes);
      var step := if f.name == "" then 0 else Span(f, sizes);
      OffsetFromAt(fields[1..], target, sizes, offset + step, k - 1);
    }
  }

  /**
   The complete outcome of `FindFieldOffset`: with `k` the first named field
   that is the target or has an unknown type, the result is the summed span
   of the named fields before `k` when `k` is the target, the unknown-type
   error when it is not, and "not found" when no field stops the walk.
   */
  lemma FindFieldOffsetOutcome(format: MessageFormat, target: string, sizes: SizeTable, k: int)
    requires IsFirstStop(format.fields, target, sizes, k)
    ensures FindFieldOffset(format, target, sizes) == OutcomeAt(format.fields, target, sizes, k)
  {
    OffsetFromAt(format.fields, target, sizes, 0, k);
  }

  /**
   When the target is named at `k`, no earlier named field carries that name
   and every earlier named field has a known size, the offset is the summed
   span of the named fields before `k`.
   */
  lemma OffsetOfTarget(format: MessageFormat, target: string, sizes: SizeTable, k: int)
    requires 0 <= k < |format.fields| && target != "" && format.fields[k].name == target
    requires forall j :: 0 <= j < k ==> format.fields[j].name != target
    requires KnownSizes(format.fields[..k], sizes)
    ensures KnownSizes(format.fields[..k], sizes)
    ensures FindFieldOffset(format, target, sizes) == Ok(SumOfSpans(format.fields[..k], sizes))
  {
    var fs := format.fields;
    forall j | 0 <= j < k
      ensures !StopsAt(fs[j], target, sizes)
    {
      assert fs[..k][j] == fs[j];
    }
    FindFieldOffsetOutcome(format, target, sizes, k);
  }

  /**
   A blank target is never found: the result is an error, and it is "not
   found" unless some named field has a type of unknown size.
   */
  lemma BlankTargetNeverFound(format: MessageFormat, sizes: SizeTable)
    ensures FindFieldOffset(format, "", sizes).Err?
    ensures KnownSizes(format.fields, sizes) ==> FindFieldOffset(format, "", sizes) == Err(FieldNotFound(""))
  {
    FirstStopExists(format.fields, "", sizes);
    var k :| IsFirstStop(format.fields, "", sizes, k);
    FindFieldOffsetOutcome(format, "", sizes, k);
  }

  /**
   An unknown-type error names the type of a named field that comes before
   any field named as the target.
   */
  lemma UnknownTypeBeforeTarget(format: MessageFormat, target: string, sizes: SizeTable, t: string)
    requires FindFieldOffset(format, target, sizes) == Err(UnknownDataType(t))
    ensures exists j :: 0 <= j < |format.fields|
              && format.fields[j].name != "" && format.fields[j].dataType == t && t !in sizes
              && forall i :: 0 <= i <= j ==> format.fields[i].name == "" || format.fields[i].name != target
  {
    var fs := format.fields;
    FirstStopExists(fs, target, sizes);
    var k :| IsFirstStop(fs, target, sizes, k);
    FindFieldOffsetOutcome(format, target, sizes, k);
    assert forall i :: 0 <= i < k ==> !StopsAt(fs[i], target, sizes);
    assert fs[k].name != "" && fs[k].dataType == t && t !in sizes;
  }

  /**
   Neither the target's own type nor anything after the target is ever
   size-checked: replacing them leaves the result unchanged.
   */
  lemma NothingAfterTargetMatters(format: MessageFormat, target: string, sizes: SizeTable, k: int,
                                   otherType: string, otherLength: int, tail: seq<FormatField>)
    requires 0 <= k < |format.fields| && target != "" && format.fields[k].name == target
    ensures var other := format.(fields := format.fields[..k] + [FormatField(otherType, otherLength, target)] + tail);
            FindFieldOffset(other, target, sizes) == FindFieldOffset(format, target, sizes)
  {
    var fs := format.fields;
    var gs := fs[..k] + [FormatField(otherType, otherLength, target)] + tail;
    FirstStopExists(fs, target, sizes);
    var s :| IsFirstStop(fs, target, sizes, s);
    assert StopsAt(fs[k], target, sizes);
    assert s <= k;
    assert forall j :: 0 <= j < k ==> gs[j] == fs[j];
    assert fs[..s] == gs[..s];
    assert IsFirstStop(gs, target, sizes, s);
    FindFieldOffsetOutcome(format, target, sizes, s);
    FindFieldOffsetOutcome(format.(fields := gs), target, sizes, s);
  }

  /** Blank-named fields are skipped wherever they stand and add nothing to the offset. */
  lemma {:induction false} BlankFieldAddsNothing(fields: seq<FormatField>, i: int, blank: FormatField,
                                                target: string, sizes: SizeTable, offset: int)
    requires 0 <= i <= |fields| && blank.name == ""
    ensures OffsetFrom(fields[..i] + [blank] + fields[i..], target, sizes, offset)
         == OffsetFrom(fields, target, sizes, offset)
    decreases i
  {
    var with := fields[..i] + [blank] + fields[i..];
    if i == 0 {
      assert with[1..] == fields;
    } else {
      assert with[0] == fields[0];
      assert with[1..] == fields[1..][..i - 1] + [blank] + fields[1..][i - 1..];
      var f := fields[0];
      var step := if f.name == "" || f.name == target || f.dataType !in sizes then 0 else Span(f, sizes);
      BlankFieldAddsNothing(fields[1..], i - 1, blank, target, sizes, offset + step);
    }
  }
}
