/** Error kinds of the matrix type, standing in for the C++ exceptions. */
module MatrixErrors {

  /** `std::invalid_argument` and `std::out_of_range`, split by the condition that raises them. */
  datatype Error =
    | InvalidDimension   // negative size at construction, non-positive size on resize
    | DimensionMismatch  // shapes incompatible for +, - or *
    | NotSquare          // determinant, complements or inverse of an unsuitable shape
    | SingularMatrix     // inverse of a matrix whose determinant is 0
    | IndexOutOfRange    // element access at or beyond the shape

  /** The value of an operation that returns something, or the error it throws. */
  datatype Result<T> = Success(value: T) | Failure(error: Error)

  /** The outcome of a `void` operation: it either completes or throws. */
  datatype Outcome = Pass | Fail(error: Error)
}
