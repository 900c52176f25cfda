/** The value coercion of csv2.go: setFieldValue and its set*FieldValue
    helpers. Each takes the text of one cell and yields either the value to
    store in the field or an error; on an error nothing is stored. */
module Coerce {
  import opened Types
  import opened Strconv

  const TimeTypeName := "time.Time"

  function SetBoolFieldValue(cell: string): (r: Result<Value>)
    ensures r.Ok? <==> cell in TrueLiterals + FalseLiterals
    ensures r.Ok? ==> r.value == BoolV(cell in TrueLiterals)
  {
    match ParseBool(cell)
    case Ok(b) => Ok(BoolV(b))
    case Err(e) => Err(e)
  }

  function SetIntFieldValue(cell: string, bitSize: Width): (r: Result<Value>)
    ensures r.Ok? ==> r.value.IntV? && MinSigned(bitSize) <= r.value.i <= MaxSigned(bitSize)
  {
    match ParseInt(cell, bitSize)
    case Ok(i) => Ok(IntV(i))
    case Err(e) => Err(e)
  }

  function SetUintFieldValue(cell: string, bitSize: Width): (r: Result<Value>)
    ensures r.Ok? ==> r.value.UintV? && r.value.n <= MaxUnsigned(bitSize)
  {
    match ParseUint(cell, bitSize)
    case Ok(n) => Ok(UintV(n))
    case Err(e) => Err(e)
  }

  function SetFloatFieldValue(cell: string, bitSize: nat, env: Env): (r: Result<Value>)
    ensures r.Ok? <==> env.parseFloat(cell, bitSize).Ok?
    ensures r.Ok? ==> r.value == FloatV(env.parseFloat(cell, bitSize).value)
    ensures r.Err? ==> r.error == env.parseFloat(cell, bitSize).error
  {
    match env.parseFloat(cell, bitSize)
    case Ok(x) => Ok(FloatV(x))
    case Err(e) => Err(e)
  }

  function SetTimeFieldValue(cell: string, format: string, env: Env): (r: Result<Value>)
    ensures r.Ok? <==> env.parseTime(format, cell).Ok?
    ensures r.Ok? ==> r.value == TimeV(env.parseTime(format, cell).value)
    ensures r.Err? ==> r.error == env.parseTime(format, cell).error
  {
    match env.parseTime(format, cell)
    case Ok(t) => Ok(TimeV(t))
    case Err(e) => Err(e)
  }

  /** A value a field of the given kind can hold. */
  predicate Fits(kind: Kind, v: Value, wordSize: WordSize)
  {
    match kind
    case String => v.StrV?
    case Bool => v.BoolV?
    case Float32 | Float64 => v.FloatV?
    case StructKind(name) => name == TimeTypeName && v.TimeV?
    case OtherKind(_) => false
    case Int | Int8 | Int16 | Int32 | Int64 =>
      v.IntV? && MinSigned(kind.BitSize(wordSize)) <= v.i <= MaxSigned(kind.BitSize(wordSize))
    case Uint | Uint8 | Uint16 | Uint32 | Uint64 =>
      v.UintV? && v.n <= MaxUnsigned(kind.BitSize(wordSize))
  }

  /** setFieldValue: the dispatch over the field's kind. A value it yields
      always fits the field; kinds without a rule are errors. */
  function SetFieldValue(kind: Kind, cell: string, format: string, env: Env): (r: Result<Value>)
    ensures r.Ok? ==> Fits(kind, r.value, env.wordSize)
    ensures kind.OtherKind? ==> r.Err?
    ensures kind.StructKind? && kind.typeName != TimeTypeName ==> r.Err?
  {
    match kind
    case String => Ok(StrV(cell))
    case Bool => SetBoolFieldValue(cell)
    case Int => SetIntFieldValue(cell, env.wordSize)
    case Int8 => SetIntFieldValue(cell, 8)
    case Int16 => SetIntFieldValue(cell, 16)
    case Int32 => SetIntFieldValue(cell, 32)
    case Int64 => SetIntFieldValue(cell, 64)
    case Uint => SetUintFieldValue(cell, env.wordSize)
    case Uint8 => SetUintFieldValue(cell, 8)
    case Uint16 => SetUintFieldValue(cell, 16)
    case Uint32 => SetUintFieldValue(cell, 32)
    case Uint64 => SetUintFieldValue(cell, 64)
    case Float32 => SetFloatFieldValue(cell, 32, env)
    case Float64 => SetFloatFieldValue(cell, 64, env)
    case StructKind(name) =>
      if name == TimeTypeName then SetTimeFieldValue(cell, format, env)
      else Err(Message("unsupported struct type " + name))
    case OtherKind(name) => Err(Message("unsupported field kind " + name))
  }

  /** The zero value reflect.New gives a field of this kind. */
  function ZeroValue(kind: Kind): Value
  {
    match kind
    case String => StrV("")
    case Bool => BoolV(false)
    case Float32 | Float64 => FloatV(0.0)
    case StructKind(name) => Zero(name)
    case OtherKind(name) => Zero(name)
    case Int | Int8 | Int16 | Int32 | Int64 => IntV(0)
    case Uint | Uint8 | Uint16 | Uint32 | Uint64 => UintV(0)
  }

  /** A string field always succeeds and holds the cell verbatim. */
  lemma StringCoercion(cell: string, format: string, env: Env)
    ensures SetFieldValue(String, cell, format, env) == Ok(StrV(cell))
  {
  }

  /** A bool field accepts exactly Go's boolean literals. */
  lemma BoolCoercion(cell: string, format: string, env: Env)
    ensures SetFieldValue(Bool, cell, format, env) == Ok(BoolV(true)) <==> cell in TrueLiterals
    ensures SetFieldValue(Bool, cell, format, env) == Ok(BoolV(false)) <==> cell in FalseLiterals
    ensures SetFieldValue(Bool, cell, format, env).Err? <==> cell !in TrueLiterals + FalseLiterals
  {
    ParseBoolSpec(cell);
  }

  /** A signed integer field of width w accepts exactly an optional sign and
      one or more digits whose value lies in [-2^(w-1), 2^(w-1)-1]. */
  lemma {:induction false} SignedCoercion(kind: Kind, cell: string, format: string, env: Env)
    requires kind.IsSigned()
    ensures var w := kind.BitSize(env.wordSize);
      var r := SetFieldValue(kind, cell, format, env);
      && (r.Ok? <==> SignedNumeral(cell) && MinSigned(w) <= SignedValue(cell) <= MaxSigned(w))
      && (r.Ok? ==> SignedNumeral(cell) && r.value == IntV(SignedValue(cell)))
      && (r.Err? ==> r.error.NumError? && r.error.func == "ParseInt" && r.error.num == cell)
  {
    ParseIntSpec(cell, kind.BitSize(env.wordSize));
  }

  /** An unsigned integer field of width w accepts exactly one or more digits,
      without a sign, whose value is at most 2^w-1. */
  lemma {:induction false} UnsignedCoercion(kind: Kind, cell: string, format: string, env: Env)
    requires kind.IsUnsigned()
    ensures var w := kind.BitSize(env.wordSize);
      var r := SetFieldValue(kind, cell, format, env);
      && (r.Ok? <==> |cell| > 0 && AllDigits(cell) && DecimalValue(cell) <= MaxUnsigned(w))
      && (r.Ok? ==> AllDigits(cell) && r.value == UintV(DecimalValue(cell)))
      && (r.Err? ==> r.error.NumError? && r.error.func == "ParseUint" && r.error.num == cell)
  {
    ParseUintSpec(cell, kind.BitSize(env.wordSize));
  }

  /** The library's result, its success value wrapped as a field value. */
  function Lift<T>(r: Result<T>, wrap: T -> Value): Result<Value>
  {
    match r
    case Ok(x) => Ok(wrap(x))
    case Err(e) => Err(e)
  }

  /** Float and time fields defer to the library parser, passing its error
      through; any other struct type and any other kind is "unsupported". */
  lemma OtherCoercions(kind: Kind, cell: string, format: string, env: Env)
    ensures kind == Float32 ==>
      SetFieldValue(kind, cell, format, env) == Lift(env.parseFloat(cell, 32), x => FloatV(x))
    ensures kind == Float64 ==>
      SetFieldValue(kind, cell, format, env) == Lift(env.parseFloat(cell, 64), x => FloatV(x))
    ensures kind == StructKind(TimeTypeName) ==>
      SetFieldValue(kind, cell, format, env) == Lift(env.parseTime(format, cell), t => TimeV(t))
    ensures kind.StructKind? && kind.typeName != TimeTypeName ==>
      SetFieldValue(kind, cell, format, env) == Err(Message("unsupported struct type " + kind.typeName))
    ensures kind.OtherKind? ==>
      SetFieldValue(kind, cell, format, env) == Err(Message("unsupported field kind " + kind.name))
  {
  }

  /** Concrete cases: "300" overflows an int8 field, "-128" fits it, a sign
      is refused by an unsigned field. */
  lemma CoercionExamples(env: Env)
    ensures SetFieldValue(Int8, "300", "", env) == Err(NumError("ParseInt", "300", ErrRange))
    ensures SetFieldValue(Int8, "-128", "", env) == Ok(IntV(-128))
    ensures SetFieldValue(Uint8, "+1", "", env) == Err(NumError("ParseUint", "+1", ErrSyntax))
    ensures SetFieldValue(Uint8, "255", "", env) == Ok(UintV(255))
  {
    assert Pow2(8) == 256 && HalfPow2(8) == 128;
    assert "-128"[1..] == "128";
    assert ScanDigits("128", 3, 128, 255) == Scanned(128);
    assert ScanDigits("128", 1, 1, 255) == Scanned(128);
  }
}
