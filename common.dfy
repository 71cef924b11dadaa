/** Small datatypes shared by the automaton layer and the query engines. */
module Common {

  /** A value that may be missing (Python's None). */
  datatype Option<T> = None | Some(value: T)

  /** The Python exceptions the modelled code can raise. */
  datatype Error = IndexError | KeyError | TypeError

  datatype Result<T> = Ok(value: T) | Err(error: Error)

  /** No two positions of s hold the same element. */
  ghost predicate Distinct<T>(s: seq<T>) {
    forall i, j :: 0 <= i < j < |s| ==> s[i] != s[j]
  }

  /** Python's truthiness of an optional set argument: None and the empty set are both falsy. */
  predicate Falsy<T>(xs: Option<set<T>>) {
    xs.None? || xs.value == {}
  }

  /** `xs or default`: the given set when it is truthy, otherwise the default. */
  function OrDefault<T>(xs: Option<set<T>>, default: set<T>): (r: set<T>)
    ensures Falsy(xs) ==> r == default
    ensures !Falsy(xs) ==> r == xs.value && r != {}
  {
    if Falsy(xs) then default else xs.value
  }

  /** The elements of a sequence as a set. */
  function Elements<T>(s: seq<T>): set<T> {
    set x | x in s
  }

  /** The elements of a set in some order (Python's iteration order of the set), each once. */
  method Enumerate<T>(xs: set<T>) returns (s: seq<T>)
    ensures Distinct(s) && Elements(s) == xs
  {
    s := [];
    var pending := xs;
    while pending != {}
      invariant pending <= xs && Distinct(s)
      invariant forall x :: x in s <==> x in xs && x !in pending
      decreases pending
    {
      var x :| x in pending;
      s := s + [x];
      pending := pending - {x};
    }
  }
}
