/** The dynamically typed Python values that reach the result formatters: `None`, booleans,
    integers and the triples the triangle finders return (of strings in aegypti, of integers
    in finlay), with Python's truthiness, equality with `True`/`False` and `str()`. */
module PyValues {
  import opened Strings

  datatype PyValue =
    | PyNone
    | PyBool(b: bool)
    | PyInt(i: int)
    | PyStrTriple(s0: string, s1: string, s2: string)
    | PyIntTriple(i0: int, i1: int, i2: int)

  /** `bool(v)`: `None`, `False` and `0` are falsy; a non-empty tuple is truthy. */
  predicate Truthy(v: PyValue) {
    match v
    case PyNone => false
    case PyBool(b) => b
    case PyInt(i) => i != 0
    case PyStrTriple(_, _, _) => true
    case PyIntTriple(_, _, _) => true
  }

  /** `isinstance(v, int)`; `bool` is a subclass of `int` in Python. */
  predicate IsInstanceInt(v: PyValue) {
    v.PyBool? || v.PyInt?
  }

  /** `v == True`, which also holds of the integer 1. */
  predicate EqualsTrue(v: PyValue) {
    v == PyBool(true) || v == PyInt(1)
  }

  /** `v == False`, which also holds of the integer 0. */
  predicate EqualsFalse(v: PyValue) {
    v == PyBool(false) || v == PyInt(0)
  }

  /** `repr(s)` of a string without quotes or backslashes in it. */
  function Quote(s: string): string {
    "'" + s + "'"
  }

  /** `str(v)`, as an f-string renders `v`. */
  function Str(v: PyValue): string {
    match v
    case PyNone => "None"
    case PyBool(b) => if b then "True" else "False"
    case PyInt(i) => IntToString(i)
    case PyStrTriple(a, b, c) => "(" + Quote(a) + ", " + Quote(b) + ", " + Quote(c) + ")"
    case PyIntTriple(a, b, c) => "(" + IntToString(a) + ", " + IntToString(b) + ", " + IntToString(c) + ")"
  }

  /** The Python exceptions the modelled code raises, with their messages. */
  datatype Exception =
    | TypeError(message: string)
    | ValueError(message: string)
    | OverflowError(message: string)
    | StopIteration
}
