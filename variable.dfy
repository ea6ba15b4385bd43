/**
 * cgraph's `Variable<T>` (variable.h): a mutable cell owning one value of type
 * T.  Client code reads the value through the const accessors and writes it
 * through the reference the non-const accessor hands out; expression sources
 * observe the cell, so a write is seen by every later read.
 */
module Variables {

  class Variable<T> {
    /** The single owned value. */
    var data: T

    /** Constructs the cell holding t. */
    constructor(t: T)
      ensures data == t
    {
      data := t;
    }

    /**
     * Reading the cell: the const `operator()`, `operator const T&` and the
     * copying `operator T` all yield the current value and change nothing.
     */
    method Get() returns (t: T)
      ensures t == data
    {
      t := data;
    }

    /**
     * Writing the cell through the `T&` returned by the non-const
     * `operator()` or `operator T&`: the new value replaces the old one.
     */
    method Set(t: T)
      modifies this
      ensures data == t
    {
      data := t;
    }
  }

  /** The helper that saves spelling out the type: a fresh cell holding t. */
  method CreateVariable<T>(t: T) returns (v: Variable<T>)
    ensures fresh(v) && v.data == t
  {
    v := new Variable(t);
  }

  /**
   * A copy taken with `operator T` is a value of its own: writing the cell
   * afterwards changes what the cell yields but not the copy.
   */
  method CopyThenWrite<T>(v: Variable<T>, u: T) returns (copy: T, now: T)
    modifies v
    ensures copy == old(v.data) && now == u && v.data == u
  {
    copy := v.Get();
    v.Set(u);
    now := v.Get();
  }
}
