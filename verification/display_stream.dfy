/**
 `cg::DisplayStream`: the safe constructors, which forward their arguments to
 `CGDisplayStreamCreate` / `CGDisplayStreamCreateWithDispatchQueue`, and
 `start` / `stop`, which turn the `CGError` status of the foreign call into a
 `Result`.

 The foreign calls are not visible: a constructor is modelled as the record of
 the create call it makes, and the status a start or stop call returns is a
 parameter.
 */
module DisplayStream {
  import opened Runtime
  import CfDictionaryOf

  /** `cg::Error` (`CGError`): a 32-bit status code. */
  type I32 = x: int | -0x8000_0000 <= x < 0x8000_0000

  datatype CgError = CgError(code: I32)

  /** `cg::Error::SUCCESS`, `kCGErrorSuccess`. */
  const SUCCESS: CgError := CgError(0)

  /** `cg::DirectDisplayID`, a `u32`. */
  type U32 = x: int | 0 <= x < 0x1_0000_0000

  /** The typed keys and values of a display stream's properties dictionary. */
  datatype PropertyKey = PropertyKey(handle: Handle)
  datatype PropertyList = PropertyList(handle: Handle)

  /** A block (`blocks::Block<F>`) the stream calls back for each frame; only
      its address travels to the foreign call. */
  datatype Block = Block(ptr: Handle) {
    /** `Block::as_ptr`. */
    function AsPtr(): Handle { ptr }
  }

  /** The arguments every create call receives. */
  datatype StreamParams = StreamParams(
    display: U32,
    outputWidth: Usize,
    outputHeight: Usize,
    pixelFormat: I32,
    properties: Option<CfDictionaryOf.DictionaryOf<PropertyKey, PropertyList>>,
    handler: Handle)

  /** A call of `CGDisplayStreamCreate` (frames delivered on the current run
      loop, `queue == None`) or of `CGDisplayStreamCreateWithDispatchQueue`
      (frames delivered on the dispatch queue `q`, `queue == Some(q)`). */
  datatype CreateCall = CreateCall(params: StreamParams, queue: Option<Handle>)

  /** `DisplayStream::with_runloop`: the run-loop create call, receiving the
      display, output size, pixel format and properties unchanged, and the
      handler block's address. */
  function WithRunloop(
    display: U32, outputWidth: Usize, outputHeight: Usize, pixelFormat: I32,
    properties: Option<CfDictionaryOf.DictionaryOf<PropertyKey, PropertyList>>, handler: Block): (c: CreateCall)
    ensures c.queue == None
    ensures c.params.display == display && c.params.pixelFormat == pixelFormat
    ensures c.params.outputWidth == outputWidth && c.params.outputHeight == outputHeight
    ensures c.params.properties == properties && c.params.handler == handler.ptr
  {
    CreateCall(StreamParams(display, outputWidth, outputHeight, pixelFormat, properties, handler.AsPtr()), None)
  }

  /** `DisplayStream::with_dispatch_queue`: the dispatch-queue create call,
      receiving the same arguments unchanged plus the queue. */
  function WithDispatchQueue(
    display: U32, outputWidth: Usize, outputHeight: Usize, pixelFormat: I32,
    properties: Option<CfDictionaryOf.DictionaryOf<PropertyKey, PropertyList>>, queue: Handle, handler: Block): (c: CreateCall)
    ensures c.queue == Some(queue)
    ensures c.params.display == display && c.params.pixelFormat == pixelFormat
    ensures c.params.outputWidth == outputWidth && c.params.outputHeight == outputHeight
    ensures c.params.properties == properties && c.params.handler == handler.ptr
  {
    CreateCall(StreamParams(display, outputWidth, outputHeight, pixelFormat, properties, handler.AsPtr()), Some(queue))
  }

  /** The two constructors make the same request and differ only in where
      frames are delivered. */
  lemma ConstructorsDifferOnlyInQueue(
    display: U32, outputWidth: Usize, outputHeight: Usize, pixelFormat: I32,
    properties: Option<CfDictionaryOf.DictionaryOf<PropertyKey, PropertyList>>, queue: Handle, handler: Block)
    ensures WithDispatchQueue(display, outputWidth, outputHeight, pixelFormat, properties, queue, handler)
         == WithRunloop(display, outputWidth, outputHeight, pixelFormat, properties, handler).(queue := Some(queue))
  {
  }

  /** Distinct requests give distinct create calls: no argument is dropped on the way. */
  lemma WithRunloopInjective(
    display: U32, outputWidth: Usize, outputHeight: Usize, pixelFormat: I32,
    properties: Option<CfDictionaryOf.DictionaryOf<PropertyKey, PropertyList>>, handler: Block,
    display': U32, outputWidth': Usize, outputHeight': Usize, pixelFormat': I32,
    properties': Option<CfDictionaryOf.DictionaryOf<PropertyKey, PropertyList>>, handler': Block)
    requires WithRunloop(display, outputWidth, outputHeight, pixelFormat, properties, handler)
          == WithRunloop(display', outputWidth', outputHeight', pixelFormat', properties', handler')
    ensures display == display' && outputWidth == outputWidth' && outputHeight == outputHeight'
    ensures pixelFormat == pixelFormat' && properties == properties' && handler == handler'
  {
  }

  /** The status mapping `start` and `stop` share: `SUCCESS` is `Ok`, any
      other status is the error itself. */
  function StatusResult(status: CgError): (r: Result<(), CgError>)
    ensures r.Ok? <==> status == SUCCESS
    ensures r.Err? ==> r.error == status
  {
    if status == SUCCESS then Ok(()) else Err(status)
  }

  /** `DisplayStream::start`, given the status `CGDisplayStreamStart` returned. */
  function Start(status: CgError): (r: Result<(), CgError>)
    ensures r == Ok(()) <==> status == SUCCESS
    ensures status != SUCCESS ==> r == Err(status)
  {
    StatusResult(status)
  }

  /** `DisplayStream::stop`, given the status `CGDisplayStreamStop` returned. */
  function Stop(status: CgError): (r: Result<(), CgError>)
    ensures r == Ok(()) <==> status == SUCCESS
    ensures status != SUCCESS ==> r == Err(status)
  {
    StatusResult(status)
  }

  /** The status a result stands for. */
  function StatusOf(r: Result<(), CgError>): CgError {
    match r
    case Ok(_) => SUCCESS
    case Err(e) => e
  }

  /** A result as `start` and `stop` can produce it: an error is never `SUCCESS`. */
  predicate WellFormed(r: Result<(), CgError>) {
    r.Err? ==> r.error != SUCCESS
  }

  /** The mapping loses nothing: the status can be read back from the result,
      and every well-formed result is the image of exactly its status. */
  lemma StatusRoundTrip(status: CgError, r: Result<(), CgError>)
    ensures StatusOf(Start(status)) == status && StatusOf(Stop(status)) == status
    ensures WellFormed(Start(status)) && WellFormed(Stop(status))
    ensures WellFormed(r) ==> Start(StatusOf(r)) == r && Stop(StatusOf(r)) == r
  {
    match r
    case Ok(u) =>
      assert u == ();
    case Err(_) =>
  }
}
