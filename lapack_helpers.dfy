// The type tables of DaCe's LAPACK library nodes: the LAPACK precision
// letter of an element type (used to build names such as `Dgetrf`), and
// for the CUDA back end the letter together with the CUDA C type and the
// name of the type in the DaCe runtime.
module LapackHelpers {

  /** The element types a data descriptor can have; the names are NumPy's. */
  datatype DType =
    | Bool
    | Int8 | Int16 | Int32 | Int64
    | UInt8 | UInt16 | UInt32 | UInt64
    | Float16 | Float32 | Float64
    | Complex64 | Complex128

  /** `dtype.__name__`, used in the error message. */
  function Name(t: DType): string
  {
    match t
    case Bool => "bool"
    case Int8 => "int8"
    case Int16 => "int16"
    case Int32 => "int32"
    case Int64 => "int64"
    case UInt8 => "uint8"
    case UInt16 => "uint16"
    case UInt32 => "uint32"
    case UInt64 => "uint64"
    case Float16 => "float16"
    case Float32 => "float32"
    case Float64 => "float64"
    case Complex64 => "complex64"
    case Complex128 => "complex128"
  }

  /** The raised `TypeError`, carrying the type it was raised for. */
  datatype Error = TypeError(dtype: DType)
  {
    /** The text of the exception. */
    function Message(): string
    {
      "Type " + Name(dtype) + " not supported in LAPACK operations"
    }
  }

  datatype Result<T> = Ok(value: T) | Err(error: Error)

  /** The floating-point element kinds, by the width of one real component. */
  datatype Precision = Real(bits: nat) | Complex(bits: nat)

  /** The floating-point description of a type, None for bool and the integers. */
  function PrecisionOf(t: DType): Option<Precision>
  {
    match t
    case Float16 => Some(Real(16))
    case Float32 => Some(Real(32))
    case Float64 => Some(Real(64))
    case Complex64 => Some(Complex(32))
    case Complex128 => Some(Complex(64))
    case _ => None
  }

  datatype Option<T> = None | Some(value: T)

  /** The types the LAPACK helpers accept: the five floating-point types. */
  predicate Supported(t: DType)
  {
    PrecisionOf(t).Some?
  }

  /** LAPACK's naming convention: S and D for single and double real, C and
      Z for single and double complex, H for half precision. */
  function PrefixOf(p: Precision): Option<char>
  {
    match p
    case Real(16) => Some('H')
    case Real(32) => Some('S')
    case Real(64) => Some('D')
    case Complex(32) => Some('C')
    case Complex(64) => Some('Z')
    case _ => None
  }

  /** `to_lapacktype`: the LAPACK character of an element type, TypeError
      for every other type. */
  function ToLapackType(t: DType): (r: Result<char>)
    ensures r.Ok? <==> Supported(t)
    ensures r.Err? ==> r.error == TypeError(t)
    ensures r.Ok? ==> Some(r.value) == PrefixOf(PrecisionOf(t).value)
  {
    if t == Float16 then Ok('H')
    else if t == Float32 then Ok('S')
    else if t == Float64 then Ok('D')
    else if t == Complex64 then Ok('C')
    else if t == Complex128 then Ok('Z')
    else Err(TypeError(t))
  }

  /** `cuda_type_metadata`: (LAPACK letter, CUDA C type, runtime name), or
      TypeError for an unsupported type. */
  function CudaTypeMetadata(t: DType): (r: Result<(char, string, string)>)
    ensures r.Ok? <==> Supported(t)
    ensures r.Err? ==> r.error == TypeError(t)
  {
    if t == Float16 then Ok(('H', "__half", "Half"))
    else if t == Float32 then Ok(('S', "float", "Float"))
    else if t == Float64 then Ok(('D', "double", "Double"))
    else if t == Complex64 then Ok(('C', "cuComplex", "Complex64"))
    else if t == Complex128 then Ok(('Z', "cuDoubleComplex", "Complex128"))
    else Err(TypeError(t))
  }

  /** The letter table of `to_lapacktype`. */
  lemma LetterTable()
    ensures ToLapackType(Float16) == Ok('H')
    ensures ToLapackType(Float32) == Ok('S')
    ensures ToLapackType(Float64) == Ok('D')
    ensures ToLapackType(Complex64) == Ok('C')
    ensures ToLapackType(Complex128) == Ok('Z')
  {
  }

  /** bool and the integer types are rejected, with the message naming the type. */
  lemma NonFloatRejected(t: DType)
    requires t.Bool? || t.Int8? || t.Int16? || t.Int32? || t.Int64? ||
             t.UInt8? || t.UInt16? || t.UInt32? || t.UInt64?
    ensures ToLapackType(t).Err? && CudaTypeMetadata(t).Err?
    ensures ToLapackType(t).error.Message() == "Type " + Name(t) + " not supported in LAPACK operations"
  {
  }

  /** Distinct supported types have distinct letters. */
  lemma LettersInjective(t1: DType, t2: DType)
    requires ToLapackType(t1).Ok? && ToLapackType(t2).Ok?
    requires ToLapackType(t1).value == ToLapackType(t2).value
    ensures t1 == t2
  {
  }

  /** The two tables agree: both reject the same types, and the first
      component of the metadata is the LAPACK letter. */
  lemma TablesAgree(t: DType)
    ensures CudaTypeMetadata(t).Ok? <==> ToLapackType(t).Ok?
    ensures CudaTypeMetadata(t).Ok? ==> CudaTypeMetadata(t).value.0 == ToLapackType(t).value
    ensures CudaTypeMetadata(t).Err? ==> CudaTypeMetadata(t).error == ToLapackType(t).error
  {
  }

  /** The metadata triples of the five types. */
  lemma MetadataTable()
    ensures CudaTypeMetadata(Float16) == Ok(('H', "__half", "Half"))
    ensures CudaTypeMetadata(Float32) == Ok(('S', "float", "Float"))
    ensures CudaTypeMetadata(Float64) == Ok(('D', "double", "Double"))
    ensures CudaTypeMetadata(Complex64) == Ok(('C', "cuComplex", "Complex64"))
    ensures CudaTypeMetadata(Complex128) == Ok(('Z', "cuDoubleComplex", "Complex128"))
  {
  }

  /** Each component of the metadata determines the type: no two supported
      types share a letter, a CUDA C type or a runtime name. */
  lemma MetadataDistinct(t1: DType, t2: DType)
    requires CudaTypeMetadata(t1).Ok? && CudaTypeMetadata(t2).Ok? && t1 != t2
    ensures CudaTypeMetadata(t1).value.0 != CudaTypeMetadata(t2).value.0
    ensures CudaTypeMetadata(t1).value.1 != CudaTypeMetadata(t2).value.1
    ensures CudaTypeMetadata(t1).value.2 != CudaTypeMetadata(t2).value.2
  {
  }
}
