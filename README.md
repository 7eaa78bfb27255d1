# check_mate in Dafny

A model of the `check_mate` crate: the `Check` capability, by which a type
says how a candidate value is validated (and possibly transformed), and the
proof-carrying wrapper `Checked<T>`, which can only be obtained by running a
check successfully.

- `results.dfy` (module `Results`): the `Result` type with the `map`,
  `map_err` and `expect` combinators the crate uses.
- `check_mate.dfy` (module `CheckMate`): a check is a total function
  `check: U -> Result<T, E>`. `Checked<T>` is a one-field datatype; the
  guarantee that its private field gives in Rust is the ghost predicate
  `IsChecked(check, c)` ("some candidate's check returned `Ok(c.inner)`"),
  which every constructing operation establishes and which holds of exactly
  the wrappers `TryFrom` can return. `TryFrom`, `From`, `IntoInner` and
  `Deref` are the wrapper's operations. The derived equality and ordering
  are shown to be structural. `Serialize` is transparent. `Deserialize`
  decodes a plain value with an abstract decoder and re-runs the check.
- `validators.dfy` (module `Validators`): the crate's test validators.
  `LessThan10` accepts numbers below ten and otherwise fails with
  `"too big"`. `GenLessThan10` always produces `LessThan10(3)` and has
  the `Infallible` error type. The crate's tests are stated as lemmas about
  these validators.

External collaborators are parameters. The decoder of `T` (`T::deserialize`),
the encoder of `T`, `D::Error::custom` and the `Display` impl of the check's
error are all passed in as functions.

## Model

| member | source | states |
|---|---|---|
| `CheckMate.TryFrom` | src/lib.rs:252-260 | succeeds exactly when the check does; on success the wrapper holds the check's output and satisfies the checked-value invariant; on failure the error is the check's error, unchanged |
| `CheckMate.From` | src/lib.rs:263-271 | for a check that never fails, the `expect` cannot be reached: the result is the wrapper `TryFrom` would give, holding the check's output, and satisfies the invariant |
| `CheckMate.IntoInner` | src/lib.rs:274-278 | unwrapping loses nothing: wrapping the returned value again gives back the same wrapper |
| `CheckMate.Deref` | src/lib.rs:281-287 | read-only access yields the same value `IntoInner` returns |
| `CheckMate.CheckedIsTryFromImage` | src/lib.rs:244-250 | a wrapper satisfies the invariant (holds some candidate's successful check output) iff some call of `TryFrom` returns it: no other way to hold a valid `Checked` |
| `CheckMate.IntoInnerTryFrom` | src/lib.rs:258-286 | unwrapping or dereferencing what `TryFrom` built returns exactly the check's `Ok` output |
| `CheckMate.EqualityIgnoresProvenance` | src/lib.rs:247 | two wrappers built by `TryFrom` from any candidates and any checks are equal iff the checks' outputs are equal |
| `CheckMate.CompareIsTotalOrder` | src/lib.rs:247 | the derived ordering compares wrappers by their inner values and is a total order whenever the inner ordering is |
| `CheckMate.Compare` | src/lib.rs:247 | the derived `Ord` compares wrappers by their inner values only, and under a total inner order says `Equal` exactly on equal wrappers |
| `CheckMate.Serialize` | src/lib.rs:248-250 | the transparent encoding of a wrapper is exactly the encoding of the plain inner value, with no envelope |
| `CheckMate.Deserialize` | src/lib.rs:289-304 | succeeds iff decoding succeeds and the decoded value passes the check; a decoder error is passed through; a check error becomes `custom` of the error's display text; on success the wrapper holds the check's output and satisfies the invariant |
| `CheckMate.DeserializeSerialize` | src/lib.rs:289-303 | for a codec that round-trips and a check that returns each of its own outputs unchanged, deserializing the transparent encoding of a valid wrapper gives back that wrapper |
| `CheckMate.RoundTripIffKeepsOwnOutputs` | src/lib.rs:289-303 | for a codec that round-trips, every valid wrapper survives serialize-then-deserialize iff the check returns each of its own outputs unchanged (normalising checks included) |
| `CheckMate.ReturnsCandidateKeepsOwnOutputs` | src/lib.rs:331-337 | a check that returns its candidate unchanged, as `Ok(self)` does, returns each of its own outputs unchanged |
| `CheckMate.TransformingCheckBreaksRoundTrip` | src/lib.rs:289-303 | with a check that transforms its candidate, a valid wrapper's encoding can be rejected on the way back in, so the round trip needs the check to return each of its own outputs unchanged |
| `Validators.CheckLessThan10` | src/lib.rs:331-342 | returns `Ok` of its candidate unchanged iff the number is below ten, otherwise `Err("too big")` |
| `Validators.LessThan10Checked` | src/lib.rs:335-341 | a `Checked<LessThan10>` satisfies `LessThan10`'s own check's invariant iff its number is below ten |
| `Validators.LessThan10RoundTrip` | src/lib.rs:328-341 | a `Checked<LessThan10>` valid for `LessThan10`'s own check (n < 10) survives serialize-then-deserialize unchanged, for any codec that round-trips |
| `Validators.ForeignCheckEscapesLessThan10` | src/lib.rs:244-271 | a wrapper built by another infallible check (`GenFifty`, producing 50) is a `Checked<LessThan10>` valid for the check that built it but not for `LessThan10`'s own check, and deserializing its encoding fails with "too big" |
| `Validators.TryFromLessThan10Examples` | src/lib.rs:357-368 | `try_from` of 9 gives a wrapper of 9, of 11 gives exactly `Err("too big")` |
| `Validators.DeserializeLessThan10Examples` | src/lib.rs:375-391 | for a decoder reading "3" as 3 and "10" as 10, deserializing "3" gives a wrapper of 3 and "10" fails with the custom error carrying "too big" |
| `Validators.CheckGenLessThan10` | src/lib.rs:344-353 | always succeeds, with a value below ten |
| `Validators.FromGenLessThan10` | src/lib.rs:370-373 | `GenLessThan10`'s check never fails, `From` on it holds `LessThan10(3)`, and that wrapper is also valid for `LessThan10`'s own check |
| `Validators.SerializeGenLessThan10` | src/lib.rs:393-400 | the wrapper from `From(GenLessThan10)` encodes exactly as the plain `LessThan10(3)`, whatever the encoder |

The invariant `IsChecked` is relative to the check that built the
wrapper. The doc comment at src/lib.rs:244-246 says the value is valid
"with respect to its implementation of `Check`", but `try_from` and
`from` (src/lib.rs:258, src/lib.rs:269) accept any candidate type whose
check outputs `T`. So a `Checked<T>` need not pass `T`'s own check.
`Validators.ForeignCheckEscapesLessThan10` exhibits such a wrapper, and
`Validators.LessThan10RoundTrip` therefore requires `n < 10`.

## Left out

- The serde and serde_json machinery: JSON parsing and printing, the `Serializer`/`Deserializer` traits and `serde(transparent)` itself. Encoding and decoding are abstract function parameters. `D::Error::custom` is a parameter `custom: string -> D`. The tests' claim that the error's `to_string()` is "too big" is stated as the error being `custom("too big")`.
- Rust module privacy. Dafny cannot hide a datatype constructor, so the private field is modelled by the `IsChecked` invariant, which all construction paths establish. The model does not stop a Dafny client from writing `Checked(x)` directly.
- Auto-deref method forwarding. `Deref` is a plain read-only accessor.
- `Infallible` as an empty type. Dafny has no uninhabited type that can be declared here, so `Infallible` is the unit type. Its emptiness is the precondition `NeverFails(check)` on `From`. The panic of `expect("infallible")` is a precondition of `Expect` that this discharges, not a runtime branch.
- Ownership and moves. Consuming `self` in `check` and `into_inner` has no counterpart in a value model.
- Reference types as candidates or outputs. Quantifying over candidates in `IsChecked` and `NeverFails` needs the `(!new)` characteristic, so candidate types (and `T` in `Deserialize` and the ordering lemmas) cannot be classes. This is harmless in a value model.
- The inner type's `PartialEq`. It is modelled as Dafny's `==`, so the derived equality is constructor injectivity, and `TotalOrder` ties `Equal` to `==` rather than to a user-defined `eq`.
- The derived `Clone`, `Debug` and `Hash` impls. Only equality and ordering are modelled, and ordering is modelled as `Ord::cmp`, not `PartialOrd::partial_cmp`.
- The `Signed`/`PublicKey::verify` example in the crate's documentation. Its verification is `todo!()` and stands for foreign cryptography.
- `as_deref` and `assert_eq!` in the tests are stated directly as equalities in the example lemmas.
- `usize` is modelled for a 64-bit target.
