/**
 * enums/src/lib.rs: `ApplicationError`, an enum of error kinds, with
 * `print_kind` naming the kind and `do_work` choosing an error from an `i32`.
 * The `io::Error` payload is its kind alone. The sink `print_kind` writes to
 * is left out: the model is the text it writes.
 */
module AppErrors {
  import opened Wrappers
  import opened Text
  import opened Division

  /** `io::ErrorKind`, as far as `do_work` uses it. */
  datatype IoErrorKind = Other

  datatype ApplicationError =
    | Code(full: nat, short: nat)
    | Unknown
    | Message(text: string)
    | IOWrapper(kind: IoErrorKind)

  /** `x as usize` for an `i32`: sign extension to 64 bits. */
  function AsUsize(x: I32): nat
  {
    if x >= 0 then x as nat else 0x1_0000_0000_0000_0000 + x as int
  }

  /** `x as u16`: the low 16 bits. */
  function AsU16(x: int): nat
  {
    x % 0x1_0000
  }

  /** Rust's `x % 65535` on an `i32`: the remainder takes the sign of `x`. */
  function RemU16Max(x: int): int
  {
    if x >= 0 then x % 0xFFFF else -((-x) % 0xFFFF)
  }

  /** The text of the `Message` branch. */
  function TerribleError(choice: int): string
  {
    IntToDecimal(choice) + " lead to a terrible error"
  }

  /** `do_work(choice)`: every choice fails. Below 100 with an I/O error, otherwise with a message
      naming the choice. The `Code` and `Unknown` branches cannot be reached, as `choice == 42` and
      `choice <= 42` are only tested after `choice < 100` has failed. */
  function DoWork(choice: I32): (r: Result<(), ApplicationError>)
    ensures r.Err?
    ensures choice < 100 <==> r.error.IOWrapper?
    ensures choice >= 100 <==> r.error.Message?
    ensures !r.error.Code? && !r.error.Unknown?
    ensures r.error.IOWrapper? ==> r.error.kind == Other
    ensures r.error.Message? ==> r.error.text == NatToDecimal(choice as nat) + " lead to a terrible error"
  {
    if choice < 100 then Err(IOWrapper(Other))
    else if choice == 42 then Err(Code(AsUsize(choice), AsU16(RemU16Max(choice as int))))
    else if choice > 42 then Err(Message(TerribleError(choice as int)))
    else Err(Unknown)
  }

  /** Different choices from 100 up give different messages: the message names its choice. */
  lemma MessageNamesChoice(a: I32, b: I32)
    requires a >= 100 && b >= 100
    ensures DoWork(a) == DoWork(b) <==> a == b
  {
    var suffix := " lead to a terrible error";
    var x := NatToDecimal(a as nat);
    var y := NatToDecimal(b as nat);
    if DoWork(a) == DoWork(b) {
      assert x + suffix == y + suffix;
      assert |x| == |y|;
      assert x == (x + suffix)[..|x|] && y == (y + suffix)[..|y|];
      assert DecimalValue(x) == DecimalValue(y);
    }
  }

  /** `test_do_work`: the choice 10 fails with an I/O error, hence `choice < 42` holds there. */
  lemma DoWorkTen()
    ensures DoWork(10) == Err(IOWrapper(Other))
  {
  }

  /** `print_kind`: the text written for each kind of error, the variant's name. */
  function KindName(e: ApplicationError): (name: string)
    ensures name in {"Code", "Unknown", "Message", "IOWrapper"}
  {
    match e
    case Code(_, _) => "Code"
    case Unknown => "Unknown"
    case Message(_) => "Message"
    case IOWrapper(_) => "IOWrapper"
  }

  /** Two errors of the same variant. */
  predicate SameKind(a: ApplicationError, b: ApplicationError)
  {
    (a.Code? && b.Code?) || (a.Unknown? && b.Unknown?) || (a.Message? && b.Message?)
    || (a.IOWrapper? && b.IOWrapper?)
  }

  /** The name tells the variants apart and ignores the payload. */
  lemma KindNameIsVariant(a: ApplicationError, b: ApplicationError)
    ensures KindName(a) == KindName(b) <==> SameKind(a, b)
  {
  }

  /** `test_application_error_kind`. */
  lemma KindNameExamples()
    ensures KindName(Code(100, 100)) == "Code"
    ensures KindName(Message("0")) == "Message"
    ensures KindName(Unknown) == "Unknown"
    ensures KindName(IOWrapper(Other)) == "IOWrapper"
  {
  }
}
