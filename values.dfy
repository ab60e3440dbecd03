/** Attribute values of taxa, Python's ordering on them, and the errors the
    phylogeny operations raise. */
module Values {

  /** An attribute value. Phylogeny files hold integers and strings; the
      sentinels "present" and "none" are strings. */
  datatype Value = Int(i: int) | Str(s: string)

  /** A taxon's attribute map: attribute name to value. */
  type Attrs = map<string, Value>

  /** Default reference time of the extant-taxa query. */
  const Present: Value := Str("present")

  /** Default marker of a taxon that is not yet destroyed. */
  const NotDestroyed: Value := Str("none")

  /** The exceptions of the phylogeny operations. The source raises a plain
      Exception with a message; the model keeps the kind of failure. */
  datatype Error =
    | MissingAttribute(attribute: string)   // one named attribute is absent from some taxon
    | MissingAttributes                     // some attribute of a list is absent from some taxon
    | NotAsexual
    | NotAsexualLineage
    | NotFound(id: int)
    | ReservedAttribute(attribute: string)
    | KeyError(key: string)                 // a Python dict lookup of an absent key
    | TypeError                             // a Python operator applied to an int and a str

  datatype Result<T> = Ok(value: T) | Err(error: Error) {
    predicate IsFailure() { Err? }
    function PropagateFailure<U>(): Result<U> requires Err? { Err(error) }
    function Extract(): T requires Ok? { value }
  }

  /** The outcome of a check that returns nothing or raises. */
  datatype Outcome = Pass | Fail(error: Error)

  /** Python's `<` on two str: lexicographic by character code. */
  predicate StrLess(a: string, b: string)
  {
    if a == [] then b != []
    else if b == [] then false
    else if a[0] != b[0] then a[0] < b[0]
    else StrLess(a[1..], b[1..])
  }

  lemma {:induction false} StrLessIrreflexive(a: string)
    ensures !StrLess(a, a)
  {
    if a != [] {
      StrLessIrreflexive(a[1..]);
    }
  }

  lemma {:induction false} StrLessTransitive(a: string, b: string, c: string)
    requires StrLess(a, b) && StrLess(b, c)
    ensures StrLess(a, c)
  {
    if a != [] && b != [] && c != [] && a[0] == b[0] && b[0] == c[0] {
      StrLessTransitive(a[1..], b[1..], c[1..]);
    }
  }

  lemma StrLessAsymmetric(a: string, b: string)
    ensures !(StrLess(a, b) && StrLess(b, a))
  {
    if StrLess(a, b) && StrLess(b, a) {
      StrLessTransitive(a, b, a);
      StrLessIrreflexive(a);
    }
  }

  /** Python's `a < b`: integers numerically, strings lexicographically; an
      int compared with a str raises TypeError. */
  function Less(a: Value, b: Value): (r: Result<bool>)
    ensures r.Err? <==> a.Int? != b.Int?
  {
    match (a, b)
    case (Int(x), Int(y)) => Ok(x < y)
    case (Str(x), Str(y)) => Ok(StrLess(x, y))
    case _ => Err(TypeError)
  }

  /** On values of one kind, `<` is a strict order. */
  lemma LessIsStrictOrder(a: Value, b: Value, c: Value)
    ensures Less(a, a) != Ok(true)
    ensures Less(a, b) == Ok(true) ==> Less(b, a) == Ok(false)
    ensures Less(a, b) == Ok(true) && Less(b, c) == Ok(true) ==> Less(a, c) == Ok(true)
  {
    if a.Str? {
      StrLessIrreflexive(a.s);
      if b.Str? {
        StrLessAsymmetric(a.s, b.s);
        if c.Str? && StrLess(a.s, b.s) && StrLess(b.s, c.s) {
          StrLessTransitive(a.s, b.s, c.s);
        }
      }
    }
  }

  /** Python's `a > b`, which for int and str is `b < a`. */
  function Greater(a: Value, b: Value): Result<bool>
  {
    Less(b, a)
  }

  /** A string of digits, as a time column read from a CSV file holds, sorts
      before "present". */
  lemma DigitStringPrecedesPresent(s: string)
    requires s != [] && '0' <= s[0] <= '9'
    ensures Greater(Str(s), Present) == Ok(false)
  {
    assert Present.s[0] == 'p';
  }
}
