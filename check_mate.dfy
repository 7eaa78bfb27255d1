/** The `Check` capability and the proof-carrying wrapper `Checked<T>`.

    A check is a total function `check: U -> Result<T, E>` that consumes a
    candidate of type `U` and yields either a (possibly transformed) output of
    type `T` or an error of type `E`.

    `Checked<T>` holds one value of type `T`. In the library its field is
    private, so the only ways to obtain one are `TryFrom`, or `From` and
    `Deserialize`, which run the same check. Dafny datatype constructors cannot be hidden, so the
    guarantee the private field gives is stated instead as the predicate
    `IsChecked(check, c)`: every wrapper the constructing operations return
    satisfies it, and the wrappers satisfying it are exactly those `TryFrom`
    can return. */
module CheckMate {
  import opened Results

  /** `Checked<T>(T)`: a value that has passed a check. */
  datatype Checked<T> = Checked(inner: T)

  /** Rust's `core::convert::Infallible` has no values. Every Dafny type has
      one, so it is the unit type here, and the emptiness that the Rust type
      guarantees is the predicate `NeverFails` on the check. */
  type Infallible = ()

  /** The invariant behind the private field: `c` holds a value that `check`
      returned as `Ok` for some candidate. */
  ghost predicate IsChecked<U(!new), T, E>(check: U -> Result<T, E>, c: Checked<T>) {
    exists u :: check(u) == Ok(c.inner)
  }

  /** What an empty error type guarantees: `check` returns `Ok` on every candidate. */
  ghost predicate NeverFails<U(!new), T, E>(check: U -> Result<T, E>) {
    forall u :: check(u).Ok?
  }

  /** `Checked::try_from`: run the check, wrap a success, return an error verbatim. */
  function TryFrom<U(!new), T, E>(check: U -> Result<T, E>, value: U): (r: Result<Checked<T>, E>)
    ensures r.Ok? <==> check(value).Ok?
    ensures r.Ok? ==> check(value) == Ok(r.value.inner) && IsChecked(check, r.value)
    ensures r.Err? ==> check(value) == Err(r.error)
  {
    check(value).Map(v => Checked(v))
  }

  /** `Checked::from`: the same check, for a check that cannot fail; the
      `expect` in the library is `Expect` here, whose precondition `NeverFails`
      discharges, so its panic branch cannot be reached. */
  function From<U(!new), T, E>(check: U -> Result<T, E>, value: U): (c: Checked<T>)
    requires NeverFails(check)
    ensures check(value) == Ok(c.inner)
    ensures IsChecked(check, c)
    ensures TryFrom(check, value) == Ok(c)
  {
    TryFrom(check, value).Expect()
  }

  /** `Checked::into_inner`: give up the wrapper, keeping the value. Nothing
      is lost: wrapping the result again rebuilds `c`. */
  function IntoInner<T>(c: Checked<T>): (v: T)
    ensures Checked(v) == c
  {
    c.inner
  }

  /** `Deref for Checked<T>`: read-only access to the wrapped value, which is
      the value `IntoInner` would return. */
  function Deref<T>(c: Checked<T>): (v: T)
    ensures v == IntoInner(c)
  {
    c.inner
  }

  /** The wrappers that satisfy the invariant are exactly the ones `TryFrom`
      can produce: there is no way to hold a `Checked` other than through the check. */
  lemma CheckedIsTryFromImage<U(!new), T, E>(check: U -> Result<T, E>, c: Checked<T>)
    ensures IsChecked(check, c) <==> exists u :: TryFrom(check, u) == Ok(c)
  {
    if IsChecked(check, c) {
      var u :| check(u) == Ok(c.inner);
      assert TryFrom(check, u) == Ok(c);
    }
  }

  /** Unwrapping what `TryFrom` built gives back exactly the check's output. */
  lemma IntoInnerTryFrom<U(!new), T, E>(check: U -> Result<T, E>, value: U)
    requires check(value).Ok?
    ensures TryFrom(check, value).Ok?
    ensures IntoInner(TryFrom(check, value).value) == check(value).value
    ensures Deref(TryFrom(check, value).value) == check(value).value
  {
  }

  /** Derived `PartialEq`/`Eq`: two wrappers are equal iff their inner values
      are, however each was obtained (different candidates, even different checks). */
  lemma EqualityIgnoresProvenance<U1(!new), U2(!new), T, E1, E2>(
    check1: U1 -> Result<T, E1>, u1: U1, check2: U2 -> Result<T, E2>, u2: U2)
    requires check1(u1).Ok? && check2(u2).Ok?
    ensures TryFrom(check1, u1).value == TryFrom(check2, u2).value
        <==> check1(u1).value == check2(u2).value
  {
  }

  // Ordering

  datatype Ordering = Less | Equal | Greater

  /** `cmp` behaves as Rust's `Ord::cmp` must: `Equal` exactly on equal values,
      `Less` one way exactly when `Greater` the other way, and `Less` is transitive. */
  ghost predicate TotalOrder<T(!new)>(cmp: (T, T) -> Ordering) {
    && (forall x, y :: cmp(x, y) == Equal <==> x == y)
    && (forall x, y :: cmp(x, y) == Less <==> cmp(y, x) == Greater)
    && (forall x, y, z :: cmp(x, y) == Less && cmp(y, z) == Less ==> cmp(x, z) == Less)
  }

  /** Derived `PartialOrd`/`Ord`: wrappers compare as their inner values do. */
  function Compare<T(!new)>(cmp: (T, T) -> Ordering, a: Checked<T>, b: Checked<T>): (r: Ordering)
    ensures r == cmp(Deref(a), Deref(b))
    ensures TotalOrder(cmp) ==> (r == Equal <==> a == b)
  {
    cmp(a.inner, b.inner)
  }

  /** The derived ordering on wrappers is a total order whenever the inner one is. */
  lemma CompareIsTotalOrder<T(!new)>(cmp: (T, T) -> Ordering)
    requires TotalOrder(cmp)
    ensures TotalOrder((a: Checked<T>, b: Checked<T>) => Compare(cmp, a, b))
  {
  }

  // Serialization (`serde(transparent)` and the `Deserialize` impl)

  /** `Serialize` with `serde(transparent)`: the wrapper is encoded exactly as
      its inner value, with no envelope. `encode` stands for the encoder of `T`. */
  function Serialize<T, R>(encode: T -> R, c: Checked<T>): (r: R)
    ensures r == encode(Deref(c))
  {
    encode(c.inner)
  }

  /** `Deserialize for Checked<T>`: decode a plain `T` (errors of the decoder
      propagate), then run the same check as `TryFrom`; a check error becomes
      the decoder's error type through `custom` applied to the error's
      `Display` text. `decode` stands for `T::deserialize`, `custom` for
      `D::Error::custom` and `display` for the error's `Display` impl. */
  function Deserialize<I, T(!new), E, D>(
    decode: I -> Result<T, D>, custom: string -> D,
    check: T -> Result<T, E>, display: E -> string, input: I): (r: Result<Checked<T>, D>)
    ensures r.Ok? <==> decode(input).Ok? && check(decode(input).value).Ok?
    ensures r.Ok? ==> IsChecked(check, r.value)
    ensures r.Ok? ==> check(decode(input).value) == Ok(r.value.inner)
    ensures decode(input).Err? ==> r == Err(decode(input).error)
    ensures decode(input).Ok? && check(decode(input).value).Err?
        ==> r == Err(custom(display(check(decode(input).value).error)))
  {
    match decode(input)
    case Err(d) => Err(d)
    case Ok(value) => TryFrom(check, value).MapErr(e => custom(display(e)))
  }

  /** A check that accepts each of its own outputs and returns it unchanged:
      running it again on what it produced gives the same result. Normalising
      checks (trimming, taking an absolute value) have this property. */
  ghost predicate KeepsOwnOutputs<T(!new), E>(check: T -> Result<T, E>) {
    forall u :: check(u).Ok? ==> check(check(u).value) == check(u)
  }

  /** A check that, when it succeeds, hands back its own candidate unchanged
      (as `Ok(self)` does). */
  ghost predicate ReturnsCandidate<T(!new), E>(check: T -> Result<T, E>) {
    forall x :: check(x).Ok? ==> check(x).value == x
  }

  /** Returning the candidate unchanged is a special case of keeping one's own outputs. */
  lemma ReturnsCandidateKeepsOwnOutputs<T(!new), E>(check: T -> Result<T, E>)
    requires ReturnsCandidate(check)
    ensures KeepsOwnOutputs(check)
  {
  }

  /** Serializing a checked value and deserializing the result gives the same
      wrapper back, provided the codec round-trips and the check keeps its
      own outputs. */
  lemma DeserializeSerialize<I, T(!new), E, D>(
    encode: T -> I, decode: I -> Result<T, D>, custom: string -> D,
    check: T -> Result<T, E>, display: E -> string, c: Checked<T>)
    requires forall x :: decode(encode(x)) == Ok(x)
    requires KeepsOwnOutputs(check)
    requires IsChecked(check, c)
    ensures Deserialize(decode, custom, check, display, Serialize(encode, c)) == Ok(c)
  {
  }

  /** For a codec that round-trips, every valid wrapper survives
      serialize-then-deserialize exactly when the check keeps its own outputs. */
  lemma RoundTripIffKeepsOwnOutputs<I, T(!new), E, D>(
    encode: T -> I, decode: I -> Result<T, D>, custom: string -> D,
    check: T -> Result<T, E>, display: E -> string)
    requires forall x :: decode(encode(x)) == Ok(x)
    ensures (forall c :: IsChecked(check, c)
               ==> Deserialize(decode, custom, check, display, Serialize(encode, c)) == Ok(c))
        <==> KeepsOwnOutputs(check)
  {
    if KeepsOwnOutputs(check) {
      forall c | IsChecked(check, c)
        ensures Deserialize(decode, custom, check, display, Serialize(encode, c)) == Ok(c)
      {
        DeserializeSerialize(encode, decode, custom, check, display, c);
      }
    }
    if forall c :: IsChecked(check, c)
         ==> Deserialize(decode, custom, check, display, Serialize(encode, c)) == Ok(c)
    {
      forall u | check(u).Ok? ensures check(check(u).value) == check(u) {
        var c := Checked(check(u).value);
        assert IsChecked(check, c);
        assert decode(encode(c.inner)) == Ok(c.inner);
        assert Deserialize(decode, custom, check, display, Serialize(encode, c)) == Ok(c);
      }
    }
  }

  /** Without `KeepsOwnOutputs` the round trip can fail: a check that maps
      `0` to `1` and rejects everything else makes `Checked(1)` a checked
      value, yet reading its encoding back runs the check on `1` and fails. */
  lemma TransformingCheckBreaksRoundTrip()
    ensures
      var check := (x: int) => if x == 0 then Ok(1) else Err(());
      var decode := (i: int) => Ok(i);
      var custom := (m: string) => m;
      var display := (e: ()) => "rejected";
      && IsChecked(check, Checked(1))
      && Deserialize(decode, custom, check, display, Serialize((x: int) => x, Checked(1)))
         == Err("rejected")
  {
    var check := (x: int) => if x == 0 then Ok(1) else Err(());
    assert check(0) == Ok(1);
  }
}
