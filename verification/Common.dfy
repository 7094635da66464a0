/** Result types, bytes, and the sequence facts that several modules share. */
module Common {

  datatype Option<+T> = None | Some(value: T)

  /** A value, or the error the source throws or returns. */
  datatype Result<+T, +E> = Ok(value: T) | Err(error: E) {
    predicate IsFailure() {
      Err?
    }

    function PropagateFailure<U>(): Result<U, E>
      requires Err?
    {
      Err(error)
    }

    function Extract(): T
      requires Ok?
    {
      value
    }
  }

  function Min(a: int, b: int): int {
    if a <= b then a else b
  }

  function Max(a: int, b: int): int {
    if a >= b then a else b
  }

  type Byte = b: nat | b < 256

  type Bytes = seq<Byte>

  /** `part` is what `data` holds at offset `at`. */
  predicate Occurs(data: Bytes, at: nat, part: Bytes) {
    at + |part| <= |data| && data[at..at + |part|] == part
  }

  lemma OccursSplit(data: Bytes, at: nat, a: Bytes, b: Bytes)
    requires Occurs(data, at, a + b)
    ensures Occurs(data, at, a) && Occurs(data, at + |a|, b)
  {
    assert data[at..at + |a|] == (a + b)[..|a|] == a;
    assert data[at + |a|..at + |a| + |b|] == (a + b)[|a|..] == b;
  }

  lemma OccursAt(data: Bytes, at: nat, part: Bytes, k: nat)
    requires Occurs(data, at, part) && k < |part|
    ensures data[at + k] == part[k]
  {
    assert data[at..at + |part|][k] == part[k];
  }

  /** Two neighbouring parts of the data occur together. */
  lemma OccursJoin(data: Bytes, at: nat, a: Bytes, b: Bytes)
    requires Occurs(data, at, a) && Occurs(data, at + |a|, b)
    ensures Occurs(data, at, a + b)
  {
    assert data[at..at + |a| + |b|] == a + b;
  }
}
