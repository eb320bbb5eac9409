/** Failure-compatible wrappers for Java's null references and thrown exceptions. */
module Wrappers {

  /** A Java reference that may be null. */
  datatype Option<+T> = None | Some(value: T) {
    predicate IsFailure() { None? }

    function PropagateFailure<U>(): Option<U>
      requires None?
    {
      None
    }

    function Extract(): T
      requires Some?
    {
      value
    }
  }

  /** The kind of exception a Java method throws. */
  datatype Error =
    | NumberFormat              // java.lang.NumberFormatException
    | IndexOutOfBounds          // ArrayIndexOutOfBounds / StringIndexOutOfBounds
    | IllegalArgument           // e.g. Arrays.copyOfRange with from > to
    | NegativeArraySize         // new byte[n] with n < 0
    | BufferUnderflow           // java.nio.BufferUnderflowException
    | NullPointer               // dereference of a null reference
    | NotBinlog                 // the bootstrap's "not a binlog file" IOException
    | UnknownBinlogVersion      // the bootstrap's "unknown binlog version" exception
    | NullFileName              // the builder's "file name is null" IOException
    | NotGtid                   // Gtid's "is not gtid format" Throwable
    | NotComparable             // Gtid.compareTo's "UUID is difference" Throwable
    | Diverges                  // the Java loop would never terminate

  /** The value a Java expression returns, or the exception it throws. */
  datatype Result<+T> = Ok(value: T) | Err(error: Error) {
    predicate IsFailure() { Err? }

    function PropagateFailure<U>(): Result<U>
      requires Err?
    {
      Err(error)
    }

    function Extract(): T
      requires Ok?
    {
      value
    }
  }
}
