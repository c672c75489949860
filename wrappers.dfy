/** The optional value used for the nullable columns of the pipeline's tables. */
module Wrappers {

  /** `None` stands for SQL NULL (or pandas NaN); `Some(v)` for a present value. */
  datatype Option<+T> = None | Some(value: T) {

    /** Applies `f` to a present value and leaves a null as it is, as pandas does
        when it rewrites a column holding missing values. */
    function Map<U>(f: T -> U): (r: Option<U>)
      ensures r.None? <==> None?
      ensures Some? ==> r.value == f(value)
    {
      match this
      case None => None
      case Some(v) => Some(f(v))
    }
  }
}
