/** The two validators of the library's tests, as instances of the generic
    model: `LessThan10`, which accepts numbers below ten, and `GenLessThan10`,
    a check that cannot fail and always produces `LessThan10(3)`. */
module Validators {
  import opened Results
  import opened CheckMate

  /** Rust's `usize` on a 64-bit target. */
  newtype usize = x: int | 0 <= x < 0x1_0000_0000_0000_0000

  datatype LessThan10 = LessThan10(n: usize)

  /** `impl Check for LessThan10`: `Ok(self)` below ten, otherwise `Err("too big")`. */
  function CheckLessThan10(x: LessThan10): (r: Result<LessThan10, string>)
    ensures r.Ok? <==> x.n < 10
    ensures r.Ok? ==> r.value == x
    ensures r.Err? ==> r.error == "too big"
  {
    if x.n < 10 then Ok(x) else Err("too big")
  }

  /** `Display` for `&'static str`: the text itself. */
  function DisplayStr(s: string): string {
    s
  }

  /** A `Checked<LessThan10>` valid for `LessThan10`'s own check holds a
      number below ten, and every number below ten can be held by one. */
  lemma LessThan10Checked(c: Checked<LessThan10>)
    ensures IsChecked(CheckLessThan10, c) <==> c.inner.n < 10
  {
    if c.inner.n < 10 {
      assert CheckLessThan10(c.inner) == Ok(c.inner);
    }
  }

  /** `LessThan10`'s check hands back its candidate, so it keeps its own
      outputs, and values valid for it survive a serialize/deserialize round trip. */
  lemma LessThan10RoundTrip<I, D>(
    encode: LessThan10 -> I, decode: I -> Result<LessThan10, D>, custom: string -> D,
    c: Checked<LessThan10>)
    requires forall x :: decode(encode(x)) == Ok(x)
    requires c.inner.n < 10
    ensures Deserialize(decode, custom, CheckLessThan10, DisplayStr, Serialize(encode, c)) == Ok(c)
  {
  }

  /** The `try_from` test: 9 is accepted unchanged, 11 is refused with "too big". */
  lemma TryFromLessThan10Examples()
    ensures TryFrom(CheckLessThan10, LessThan10(9)) == Ok(Checked(LessThan10(9)))
    ensures TryFrom(CheckLessThan10, LessThan10(11)) == Err("too big")
  {
  }

  /** The `deserialize` test, for any decoder that reads "3" as 3 and "10" as
      10: the first is accepted, the second fails with the decoder's custom
      error carrying exactly "too big". */
  lemma DeserializeLessThan10Examples<D>(
    decode: string -> Result<LessThan10, D>, custom: string -> D)
    requires decode("3") == Ok(LessThan10(3))
    requires decode("10") == Ok(LessThan10(10))
    ensures Deserialize(decode, custom, CheckLessThan10, DisplayStr, "3") == Ok(Checked(LessThan10(3)))
    ensures Deserialize(decode, custom, CheckLessThan10, DisplayStr, "10") == Err(custom("too big"))
  {
  }

  datatype GenLessThan10 = GenLessThan10

  /** `impl Check for GenLessThan10`: always `Ok(LessThan10(3))`, error type `Infallible`. */
  function CheckGenLessThan10(g: GenLessThan10): (r: Result<LessThan10, Infallible>)
    ensures r.Ok? && r.value.n < 10
  {
    Ok(LessThan10(3))
  }

  /** The error type of `GenLessThan10`'s check is never produced, so `From`
      applies; it yields a wrapper around `LessThan10(3)`, which is also a
      valid `Checked<LessThan10>` in its own right. */
  lemma FromGenLessThan10()
    ensures NeverFails(CheckGenLessThan10)
    ensures Deref(From(CheckGenLessThan10, GenLessThan10)) == LessThan10(3)
    ensures IsChecked(CheckLessThan10, From(CheckGenLessThan10, GenLessThan10))
  {
    assert NeverFails(CheckGenLessThan10);
    LessThan10Checked(Checked(LessThan10(3)));
  }

  /** A generator outside the library's tests: a check that cannot fail and
      always produces `LessThan10(50)`. */
  datatype GenFifty = GenFifty

  function CheckGenFifty(g: GenFifty): (r: Result<LessThan10, Infallible>)
    ensures r.Ok? && r.value.n == 50
  {
    Ok(LessThan10(50))
  }

  /** A wrapper is valid only for the check that built it, not for the
      inner type's own check: `From(GenFifty)` is a `Checked<LessThan10>`
      holding 50, which `LessThan10`'s check refuses, so re-reading its
      encoding fails with "too big". */
  lemma ForeignCheckEscapesLessThan10<D>(custom: string -> D)
    ensures NeverFails(CheckGenFifty)
    ensures IsChecked(CheckGenFifty, From(CheckGenFifty, GenFifty))
    ensures !IsChecked(CheckLessThan10, From(CheckGenFifty, GenFifty))
    ensures Deserialize((x: LessThan10) => Ok(x), custom, CheckLessThan10, DisplayStr,
                        Serialize((x: LessThan10) => x, From(CheckGenFifty, GenFifty)))
         == Err(custom("too big"))
  {
  }

  /** The `serialize` test: a wrapper made by `From(GenLessThan10)` encodes
      exactly as the plain `LessThan10(3)`, whatever the encoder. */
  lemma SerializeGenLessThan10<R>(encode: LessThan10 -> R)
    ensures Serialize(encode, From(CheckGenLessThan10, GenLessThan10)) == encode(LessThan10(3))
  {
  }
}
