/** The firmware's request handler: an 8 KiB application image. */
module Memory {
  import opened Bytes

  const IMAGE_SIZE: nat := 8192
  const VERSION: u32 := 1

  /** One more than the largest machine address: the firmware is built for a 32-bit core, on
      which the sum of address and length wraps around. */
  const ADDRESS_SPACE: nat := 0x1_0000_0000

  datatype ServerError = InvalidParameter | InvalidAddress | LengthTooLong | InvalidRequest | Unknown

  function ErrorCode(e: ServerError): u32 {
    match e
    case InvalidParameter => 0x01
    case InvalidAddress => 0x02
    case LengthTooLong => 0x03
    case InvalidRequest => 0x04
    case Unknown => 0x80
  }

  /** How a handler call ends; the firmware's panic handler never returns. */
  datatype Outcome<+T> = Success(value: T) | Failure(error: ServerError) | Panic

  /** The slice `address .. address + length` of the image, the sum taken modulo the address
      space: a slice that starts behind its end panics. */
  function ReadImage(image: seq<byte>, address: u32, length: nat): (r: Outcome<seq<byte>>)
    requires |image| < ADDRESS_SPACE && length < ADDRESS_SPACE
    ensures r.Success? ==> |r.value| == length
  {
    var end := (address + length) % ADDRESS_SPACE;
    if end > |image| then Failure(InvalidAddress)
    else if address > end then Panic
    else Success(image[address..end])
  }

  function WriteImage(image: seq<byte>, address: u32, data: seq<byte>): (r: Outcome<seq<byte>>)
    requires |image| < ADDRESS_SPACE && |data| < ADDRESS_SPACE
    ensures r.Success? ==> |r.value| == |image|
  {
    var end := (address + |data|) % ADDRESS_SPACE;
    if end > |image| then Failure(InvalidAddress)
    else if address > end then Panic
    else Success(image[..address] + data + image[end..])
  }

  /** Whether the sum of address and length wraps around into the image. */
  predicate WrapsIntoImage(size: nat, address: u32, length: nat) {
    ADDRESS_SPACE <= address + length <= ADDRESS_SPACE + size
  }

  /** An access works exactly when it lies in the image; it takes the firmware down exactly when
      it wraps around into it. */
  lemma AccessOutcome(image: seq<byte>, address: u32, data: seq<byte>)
    requires |image| < ADDRESS_SPACE && |data| < 0x1_0000
    ensures ReadImage(image, address, |data|).Success? <==> address + |data| <= |image|
    ensures ReadImage(image, address, |data|).Panic? <==> WrapsIntoImage(|image|, address, |data|)
    ensures WriteImage(image, address, data).Success? <==> address + |data| <= |image|
    ensures WriteImage(image, address, data).Panic? <==> WrapsIntoImage(|image|, address, |data|)
  {
    if address + |data| >= ADDRESS_SPACE {
      assert (address + |data|) % ADDRESS_SPACE == address + |data| - ADDRESS_SPACE;
    }
  }

  /** The last address of 32 bits wraps around: a read of one byte there panics, as does a write; one
      behind the image is refused. */
  lemma LastAddressPanics(image: seq<byte>, b: byte)
    requires |image| == 8192
    ensures ReadImage(image, 0xFFFF_FFFF, 1).Panic? && WriteImage(image, 0xFFFF_FFFF, [b]).Panic?
    ensures ReadImage(image, 8192, 1).Failure? && ReadImage(image, 8191, 1) == Success([image[8191]])
  {
    assert image[8191..8192] == [image[8191]];
  }

  /** Every other access is refused as an invalid address. */
  lemma OtherAccessIsInvalid(image: seq<byte>, address: u32, length: nat, data: seq<byte>)
    requires |image| < ADDRESS_SPACE && length < ADDRESS_SPACE && |data| < ADDRESS_SPACE
    ensures ReadImage(image, address, length).Failure? ==> ReadImage(image, address, length).error == InvalidAddress
    ensures WriteImage(image, address, data).Failure? ==> WriteImage(image, address, data).error == InvalidAddress
  {
  }

  /** An accepted write changes the named bytes and nothing else. */
  lemma WriteIsLocal(image: seq<byte>, address: u32, data: seq<byte>, a: nat)
    requires |image| < ADDRESS_SPACE && address + |data| <= |image|
    requires a < |image|
    ensures WriteImage(image, address, data).Success?
    ensures WriteImage(image, address, data).value[a] ==
            if address <= a < address + |data| then data[a - address] else image[a]
  {
  }

  class Handler {
    const image: array<byte>

    constructor ()
      ensures image.Length == IMAGE_SIZE == 8192 && fresh(image)
      ensures image[..] == seq(IMAGE_SIZE, _ => 0)
    {
      image := new byte[IMAGE_SIZE](_ => 0);
    }

    /** Copies the addressed bytes into `buffer[offset..offset + length]`. */
    method OnReadMemory(address: u32, buffer: array<byte>, offset: nat, length: nat) returns (r: Outcome<()>)
      requires image.Length < ADDRESS_SPACE && length < ADDRESS_SPACE
      requires offset + length <= buffer.Length && buffer != image
      modifies buffer
      ensures match ReadImage(image[..], address, length)
              case Success(data) =>
                && r == Success(())
                && buffer[..] == old(buffer[..offset]) + data + old(buffer[offset + length..])
              case Failure(e) => r == Failure(e) && buffer[..] == old(buffer[..])
              case Panic => r == Panic && buffer[..] == old(buffer[..])
    {
      var end := (address + length) % ADDRESS_SPACE;
      if end > image.Length {
        return Failure(InvalidAddress);
      }
      if address > end {
        return Panic;
      }
      forall i | 0 <= i < length {
        buffer[offset + i] := image[address + i];
      }
      return Success(());
    }

    method OnWriteMemory(address: u32, data: seq<byte>) returns (r: Outcome<()>)
      requires image.Length < ADDRESS_SPACE && |data| < ADDRESS_SPACE
      modifies image
      ensures match WriteImage(old(image[..]), address, data)
              case Success(after) => r == Success(()) && image[..] == after
              case Failure(e) => r == Failure(e) && image[..] == old(image[..])
              case Panic => r == Panic && image[..] == old(image[..])
    {
      var end := (address + |data|) % ADDRESS_SPACE;
      if end > image.Length {
        return Failure(InvalidAddress);
      }
      if address > end {
        return Panic;
      }
      forall i | 0 <= i < |data| {
        image[address + i] := data[i];
      }
      return Success(());
    }
  }
}
