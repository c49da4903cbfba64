/** Shared vocabulary of the model: absent values, thrown exceptions and counting. */
module Common {

  /** A value that may be absent (a C# null reference or an unset struct slot). */
  datatype Option<+T> = None | Some(value: T)

  /** The runtime exceptions the modelled C# code can raise. */
  datatype Fault =
    | NullReference            // member access on null (e.g. CreateCurrentCode on an empty list)
    | ArgumentNull             // LinkedList.AddBefore/AddAfter with a null node
    | InvalidOperation         // LinkedList.AddBefore/AddAfter with a node that is not in this list
    | ArgumentError            // a constructor argument the inspection refuses (empty path, unreadable file)
    | StartBeforeCursor        // CutCompleteCode: a match starts before the end of the previous one
    | DuplicateKey             // Dictionary.Add with a key that is already present

  /** How a call that may throw ends: normally with a value, or with an exception. */
  datatype Outcome<+T> = Return(value: T) | Throw(fault: Fault)

  /** Two appends in a row are one append of both parts. */
  lemma AppendTwo<T>(s0: seq<T>, s1: seq<T>, s2: seq<T>, a: seq<T>, b: seq<T>)
    requires s1 == s0 + a && s2 == s1 + b
    ensures s2 == s0 + (a + b)
  {
  }

  /** Three appends in a row are one append of the three parts. */
  lemma AppendThree<T>(s0: seq<T>, s1: seq<T>, s2: seq<T>, s3: seq<T>, a: seq<T>, b: seq<T>, c: seq<T>)
    requires s1 == s0 + a && s2 == s1 + b && s3 == s2 + c
    ensures s3 == s0 + (a + b + c)
  {
  }

  /** The number of occurrences of `c` in `s`. */
  function CountOf(c: char, s: string): nat
    decreases |s|
  {
    if s == [] then 0 else CountOf(c, s[..|s| - 1]) + (if s[|s| - 1] == c then 1 else 0)
  }

  lemma {:induction false} CountOfAppend(c: char, a: string, b: string)
    ensures CountOf(c, a + b) == CountOf(c, a) + CountOf(c, b)
    decreases |b|
  {
    if b == [] {
      assert a + b == a;
    } else {
      assert (a + b)[..|a + b| - 1] == a + b[..|b| - 1];
      CountOfAppend(c, a, b[..|b| - 1]);
    }
  }
}
