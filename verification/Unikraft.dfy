/** What is booted for a unikernel file on an aarch64 host. */
module Unikraft {
  import opened Streams
  import opened Wrappers
  import opened Elf
  import Writer = ElfWriter

  datatype PrepareError = NotRead(read: ReadError) | NotShimmed(shim: ShimError)

  /** The raw image handed to the loader: the shimmed copy, or the file itself if there is nothing to shim. */
  function Prepared(file: seq<byte>): Result<seq<byte>, PrepareError> {
    match ReadAsImage(file)
    case Err(e) => Err(NotRead(e))
    case Ok(image) =>
      match Shimmed(image)
      case Err(e) => Err(NotShimmed(e))
      case Ok(None) => Ok(file)
      case Ok(Some(shimmed)) => Ok(shimmed)
  }

  /** A file is refused for what refuses its image, and an image for what refuses its shim. */
  lemma Refusals(file: seq<byte>)
    ensures forall e :: Prepared(file) == Err(NotRead(e)) <==> ReadAsImage(file) == Err(e)
    ensures forall e :: Prepared(file) == Err(NotShimmed(e)) <==>
              ReadAsImage(file).Ok? && Shimmed(ReadAsImage(file).value) == Err(e)
  {
    hide ReadAsImage, Shimmed;
  }

  /** The file boots the kernel it holds, except for an executable whose image asks for offset 0: there the
      executable itself is handed over as if it were the image, which works only if it begins with the image. */
  lemma BootsUnlessUnshimmedElf(file: seq<byte>)
    requires Prepared(file).Ok?
    ensures var image, t := ReadAsImage(file).value, TextOffset(ReadAsImage(file).value);
            Boots(Prepared(file).value, image, t) <==> !(IsElf(file) && t == 0) || image <= file
  {
    hide Flattened, TextOffset;
    var image := ReadAsImage(file).value;
    var raw, t := Prepared(file).value, TextOffset(image);
    ShimBoots(image);
    if IsElf(file) && t == 0 {
      assert raw == file;
      BootsUnmoved(raw, image);
    }
  }

  lemma BootsUnmoved(raw: seq<byte>, image: seq<byte>)
    ensures Boots(raw, image, 0) <==> image <= raw
  {
    if image <= raw {
      assert image == raw[..|image|];
      forall k | 0 <= k < |image| ensures GuestByte(raw, LOAD_ADDR + 0 + k) == Some(image[k]) {
        assert raw[k] == image[k];
      }
    }
    if Boots(raw, image, 0) {
      forall k | 0 <= k < |image| ensures k < |raw| && raw[k] == image[k] {
        assert GuestByte(raw, LOAD_ADDR + 0 + k) == Some(image[k]);
      }
      if image != [] {
        var last := |image| - 1;
        assert GuestByte(raw, LOAD_ADDR + 0 + last) == Some(image[last]);
      }
    }
  }

  /** Such a file: any image with offset 0 in an executable of its own. */
  lemma UnshimmedElf(image: seq<byte>, paddr: nat)
    requires 0x40 <= |image| && 120 + |image| < TWO64 && paddr + |image| < TWO64
    requires IsArm64Image(image) && TextOffset(image) == 0 && !IsElf(image)
    ensures var file := Writer.Executable(image, paddr);
            ReadAsImage(file) == Ok(image) && Prepared(file) == Ok(file) && !Boots(file, image, 0)
  {
    hide Flattened, TextOffset;
    Writer.ImageInverts(image, paddr);
    var file := Writer.Executable(image, paddr);
    BootsUnlessUnshimmedElf(file);
    if image <= file { FrontIsElf(image, file); }
  }

  lemma FrontIsElf(image: seq<byte>, file: seq<byte>)
    requires IsElf(file) && image <= file && |image| >= 4
    ensures IsElf(image)
  {
    assert image[..4] == file[..4] == ELF_MAGIC;
  }
}
