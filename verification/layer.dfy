/**
 * Argument checking for a layer: the positional arguments given to the
 * constructor (and to the other layer methods) must be rows of equal length
 * whose elements are all valid or are one of the special markers.
 */
module Layer {
  import opened Wrappers
  import opened Errors

  /**
   * One positional argument. `Items` is a list or tuple; `Text` is a string,
   * which has a length but is not accepted as a row; `Scalar` is any other
   * value, which has no length.
   */
  datatype Arg<T> = Items(elems: seq<T>) | Text(chars: string) | Scalar

  const NotListsMessage := "Arguments are not lists (or iterables)"
  const RowLengthsMessage := "Row lengths differ"
  /** The interpreter's message when `len` is applied to a value without a length. */
  const NoLengthMessage := "object has no len()"

  /** `len(a)`, defined for every argument except a scalar. */
  function Length<T>(a: Arg<T>): nat
    requires !a.Scalar?
  {
    if a.Items? then |a.elems| else |a.chars|
  }

  /** An element passes when the element check accepts it or it is a marker. */
  predicate ElementOk<T>(valid: T -> bool, special: T -> bool, e: T) {
    valid(e) || special(e)
  }

  /** A row that raises nothing: a list of `ncols` acceptable elements. */
  predicate RowOk<T>(row: Arg<T>, ncols: nat, valid: T -> bool, special: T -> bool) {
    && row.Items?
    && |row.elems| == ncols
    && forall m :: 0 <= m < |row.elems| ==> ElementOk(valid, special, row.elems[m])
  }

  /** A layer the check accepts. */
  predicate WellFormedLayer<T>(lists: seq<Arg<T>>, valid: T -> bool, special: T -> bool) {
    && |lists| > 0
    && !lists[0].Scalar?
    && forall i :: 0 <= i < |lists| ==> RowOk(lists[i], Length(lists[0]), valid, special)
  }

  /** The exception a row that is not acceptable raises, by the order of the tests on it. */
  function RowError<T>(row: Arg<T>, ncols: nat, errstr: string): Error {
    if !row.Items? then ValueError(NotListsMessage)
    else if |row.elems| != ncols then ValueError(RowLengthsMessage)
    else TypeError(errstr)
  }

  /**
   * `err` is the exception the check raises on `lists`: the empty tuple fails
   * on its first row, a first row without a length fails in `len`, and
   * otherwise the first unacceptable row decides the exception.
   */
  predicate LayerError<T>(lists: seq<Arg<T>>, valid: T -> bool, special: T -> bool, errstr: string, err: Error) {
    if |lists| == 0 then err == IndexError
    else if lists[0].Scalar? then err == TypeError(NoLengthMessage)
    else
      exists i ::
        && 0 <= i < |lists|
        && (forall k :: 0 <= k < i ==> RowOk(lists[k], Length(lists[0]), valid, special))
        && !RowOk(lists[i], Length(lists[0]), valid, special)
        && err == RowError(lists[i], Length(lists[0]), errstr)
  }

  /** `_layer_check`: passes exactly on well-formed layers and otherwise raises the first error. */
  method LayerCheck<T>(lists: seq<Arg<T>>, valid: T -> bool, special: T -> bool, errstr: string)
    returns (r: Outcome<Error>)
    ensures r.Pass? <==> WellFormedLayer(lists, valid, special)
    ensures r.Fail? ==> LayerError(lists, valid, special, errstr, r.error)
  {
    if |lists| == 0 {
      return Fail(IndexError);
    }
    if lists[0].Scalar? {
      return Fail(TypeError(NoLengthMessage));
    }
    var ncols := Length(lists[0]);
    var i := 0;
    while i < |lists|
      invariant 0 <= i <= |lists|
      invariant forall k :: 0 <= k < i ==> RowOk(lists[k], ncols, valid, special)
    {
      var row := lists[i];
      if !row.Items? {
        return Fail(ValueError(NotListsMessage));
      }
      if |row.elems| != ncols {
        return Fail(ValueError(RowLengthsMessage));
      }
      var j := 0;
      while j < |row.elems|
        invariant 0 <= j <= |row.elems|
        invariant forall m :: 0 <= m < j ==> ElementOk(valid, special, row.elems[m])
      {
        var element := row.elems[j];
        if !valid(element) && !special(element) {
          return Fail(TypeError(errstr));
        }
        j := j + 1;
      }
      i := i + 1;
    }
    return Pass;
  }
}
