/** The model factories: enumerations naming the available encoders, decoders and networks,
    and one dispatch function per enumeration from a tag to the class it names. */
module FactoryModels {
  import opened Wrappers

  datatype Encoder = CResNet50
  datatype Decoder = RNetvI | RNetvH | RNetvHC
  datatype NeuralNet = CaRNet

  /** The kinds of argument a caller can pass to a factory: a member of one of the three
      enumerations; an object that carries attributes named RNetvI, RNetvH and RNetvHC but is
      none of the decoder members (the Decoder enumeration itself, say); or some other value
      without those attributes (an integer, say). Enum members compare equal only to themselves. */
  datatype Tag = EncoderTag(encoder: Encoder)
               | DecoderTag(decoder: Decoder)
               | NeuralNetTag(net: NeuralNet)
               | DecoderLike
               | Plain(value: int)

  /** The classes the factories hand back. */
  datatype ModelClass = CResNet50Class | RNetvIClass | RNetvHClass | RNetvHCClass | CaRNetClass

  /** The value of each enumeration member. */
  function EncoderValue(e: Encoder): int {
    match e
    case CResNet50 => 0
  }

  function DecoderValue(d: Decoder): int {
    match d
    case RNetvI => 0
    case RNetvH => 1
    case RNetvHC => 2
  }

  function NeuralNetValue(n: NeuralNet): int {
    match n
    case CaRNet => 0
  }

  /** Decoder(v): the member with value v, or ValueError when there is none. */
  function DecoderOf(v: int): (r: Result<Decoder>)
    ensures r.Ok? <==> 0 <= v < 3
    ensures r.Ok? ==> DecoderValue(r.value) == v
    ensures r.Err? ==> r.error == ValueError
  {
    if v == 0 then Ok(RNetvI)
    else if v == 1 then Ok(RNetvH)
    else if v == 2 then Ok(RNetvHC)
    else Err(ValueError)
  }

  /** The decoder members have pairwise distinct values, and the value names the member. */
  lemma DecoderValuesDistinct(a: Decoder, b: Decoder)
    ensures DecoderValue(a) == DecoderValue(b) <==> a == b
    ensures DecoderOf(DecoderValue(a)) == Ok(a)
  {
  }

  /** FactoryEncoder: CResNet50 for the CResNet50 member; NotImplementedError for any other
      argument. */
  function FactoryEncoder(arg: Tag): (r: Result<ModelClass>)
    ensures r.Ok? <==> arg == EncoderTag(CResNet50)
    ensures r.Ok? ==> r.value == CResNet50Class
    ensures r.Err? ==> r.error == NotImplementedError
  {
    if arg == EncoderTag(CResNet50) then Ok(CResNet50Class)
    else Err(NotImplementedError)
  }

  /** FactoryDecoder compares its argument with members looked up on the argument itself
      (`decoder.RNetvI`), so a decoder member is dispatched to its class. An argument without
      those attributes fails on the first lookup with AttributeError. An argument that has them
      but is no decoder member passes all three comparisons and reaches NotImplementedError. */
  function FactoryDecoder(arg: Tag): (r: Result<ModelClass>)
    ensures r.Ok? <==> arg.DecoderTag?
    ensures r.Ok? ==> r.value in {RNetvIClass, RNetvHClass, RNetvHCClass}
    ensures r.Err? ==> r.error == (if arg == DecoderLike then NotImplementedError else AttributeError)
  {
    match arg
    case DecoderTag(RNetvI) => Ok(RNetvIClass)
    case DecoderTag(RNetvH) => Ok(RNetvHClass)
    case DecoderTag(RNetvHC) => Ok(RNetvHCClass)
    case DecoderLike => Err(NotImplementedError)
    case _ => Err(AttributeError)
  }

  /** FactoryNeuralNet: CaRNet for the CaRNet member; NotImplementedError otherwise. */
  function FactoryNeuralNet(arg: Tag): (r: Result<ModelClass>)
    ensures r.Ok? <==> arg == NeuralNetTag(CaRNet)
    ensures r.Ok? ==> r.value == CaRNetClass
    ensures r.Err? ==> r.error == NotImplementedError
  {
    if arg == NeuralNetTag(CaRNet) then Ok(CaRNetClass)
    else Err(NotImplementedError)
  }

  /** Each decoder member is sent to the class of the same name, so the fall-through
      NotImplementedError is unreachable for decoders and distinct members give distinct
      classes. */
  lemma FactoryDecoderDispatch(a: Decoder, b: Decoder)
    ensures FactoryDecoder(DecoderTag(RNetvI)) == Ok(RNetvIClass)
    ensures FactoryDecoder(DecoderTag(RNetvH)) == Ok(RNetvHClass)
    ensures FactoryDecoder(DecoderTag(RNetvHC)) == Ok(RNetvHCClass)
    ensures FactoryDecoder(DecoderTag(a)).Ok?
    ensures FactoryDecoder(DecoderTag(a)) == FactoryDecoder(DecoderTag(b)) <==> a == b
  {
  }

  /** Every factory is total over its own enumeration, and no factory accepts a member of
      another enumeration. */
  lemma FactoriesTotal(e: Encoder, n: NeuralNet, t: Tag)
    ensures FactoryEncoder(EncoderTag(e)) == Ok(CResNet50Class)
    ensures FactoryNeuralNet(NeuralNetTag(n)) == Ok(CaRNetClass)
    ensures FactoryEncoder(t).Ok? ==> FactoryDecoder(t).Err? && FactoryNeuralNet(t).Err?
    ensures FactoryDecoder(t).Ok? ==> FactoryNeuralNet(t).Err?
  {
  }
}
