/** Values, kinds, errors and type descriptions shared by the decoder.
    Go's reflection is replaced by explicit descriptions: a struct type is a
    list of fields, each with its name, its struct tags and its reflect kind. */
module Types {

  datatype Option<+T> = None | Some(value: T)

  /** The `Err` field of a strconv.NumError. */
  datatype NumErrKind = ErrSyntax | ErrRange

  /** The error values the decoder returns or passes through. */
  datatype Error =
    | EOF                                              // io.EOF, reported by the record reader at the end
    | Message(text: string)                            // errors.New / fmt.Errorf
    | NumError(func: string, num: string, err: NumErrKind)  // *strconv.NumError
    | ForeignError(text: string)                       // an error built by a library outside the model

  datatype Result<+T> = Ok(value: T) | Err(error: Error)

  /** Bit widths strconv is asked to honour. */
  type Width = w: nat | w == 8 || w == 16 || w == 32 || w == 64 witness 64

  /** bits.UintSize: the platform word size. */
  type WordSize = w: Width | w == 32 || w == 64 witness 64

  /** reflect.Kind of a struct field, as far as the decoder distinguishes it. */
  datatype Kind =
    | String | Bool
    | Int | Int8 | Int16 | Int32 | Int64
    | Uint | Uint8 | Uint16 | Uint32 | Uint64
    | Float32 | Float64
    | StructKind(typeName: string)   // a struct-typed field; typeName is Type().String()
    | OtherKind(name: string)        // any other kind, by its Kind.String() name
  {
    predicate IsSigned() { Int? || Int8? || Int16? || Int32? || Int64? }
    predicate IsUnsigned() { Uint? || Uint8? || Uint16? || Uint32? || Uint64? }

    /** The bit size passed to strconv for an integer kind. */
    function BitSize(wordSize: WordSize): Width
      requires IsSigned() || IsUnsigned()
    {
      match this
      case Int | Uint => wordSize
      case Int8 | Uint8 => 8
      case Int16 | Uint16 => 16
      case Int32 | Uint32 => 32
      case Int64 | Uint64 => 64
    }
  }

  /** One field of a struct type: its name, its tag key/value pairs and its kind. */
  datatype Field = Field(name: string, tags: map<string, string>, kind: Kind)

  /** The dynamic type of the `rows` argument. */
  datatype GoType =
    | PointerTo(elem: GoType)
    | SliceOf(elem: GoType)
    | StructType(name: string, fields: seq<Field>)
    | OtherType(kindName: string)

  /** An instant produced by the time library; its inner layout is not modelled. */
  datatype Time = Time(instant: int)

  /** The value held by one field of a decoded row. */
  datatype Value =
    | StrV(s: string)
    | BoolV(b: bool)
    | IntV(i: int)
    | UintV(n: nat)
    | FloatV(x: real)
    | TimeV(t: Time)
    | Zero(typeName: string)   // zero value of a type whose values the model leaves abstract

  type Row = seq<Value>

  /** Library parsers the decoder calls but that are not modelled:
      strconv.ParseFloat(text, bitSize) and time.Parse(layout, text);
      wordSize stands for bits.UintSize. */
  datatype Env = Env(
    wordSize: WordSize,
    parseFloat: (string, nat) -> Result<real>,
    parseTime: (string, string) -> Result<Time>)

  /** 1 << w, for the widths strconv honours. */
  function Pow2(w: Width): (r: nat)
    ensures r >= 256
  {
    if w == 8 then 0x100
    else if w == 16 then 0x1_0000
    else if w == 32 then 0x1_0000_0000
    else 0x1_0000_0000_0000_0000
  }

  /** 1 << (w - 1): half of Pow2(w). */
  function HalfPow2(w: Width): (r: nat)
    ensures 2 * r == Pow2(w)
  {
    if w == 8 then 0x80
    else if w == 16 then 0x8000
    else if w == 32 then 0x8000_0000
    else 0x8000_0000_0000_0000
  }
}
