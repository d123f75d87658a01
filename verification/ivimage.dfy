/**
  One image known to the viewer: its file name, header spec, pixel buffer
  (absent when not resident), validity flags, the pending error message and
  the per-image display parameters. Operations are pure: each returns the
  updated record.
 */
module IvImage {
  import opened Wrappers
  import opened Layout

  newtype byte = b: int | 0 <= b < 256

  datatype Image = Image(
    name: string,                  // file name; empty when uninitialized
    nsubimages: nat,               // subimages in the file
    subimage: int,                 // subimage currently held
    spec: Spec,
    pixels: Option<seq<byte>>,     // None plays the null pixel pointer
    thumbnail: Option<seq<byte>>,
    specValid: bool,
    pixelsValid: bool,
    thumbnailValid: bool,
    badFile: bool,                 // the file could never be opened
    err: string,                   // last error, cleared when read
    gamma: real,
    exposure: real                 // in stops
  )

  /** A record that knows a file name and nothing else. */
  function NewImage(filename: string): (r: Image)
    ensures r.name == filename && r.pixels.None? && r.thumbnail.None? && r.err == ""
    ensures !r.specValid && !r.pixelsValid && !r.thumbnailValid && !r.badFile
    ensures r.gamma == 1.0 && r.exposure == 0.0
    ensures Consistent(r)
    ensures Classify(r) == (if |filename| == 0 then Uninitialized else Ignorant)
  {
    Image(filename, 0, 0, Spec(0, 0, 0, 0, 0), None, None,
          false, false, false, false, "", 1.0, 0.0)
  }

  // ---------------------------------------------------------------------
  // Error message: read-and-clear

  /** The pending error, and the record with it cleared. */
  function ErrorMessage(img: Image): (r: (string, Image))
    ensures r.0 == img.err
    ensures r.1.err == ""
    ensures r.1.(err := img.err) == img
  {
    (img.err, img.(err := ""))
  }

  /** A second read returns nothing and changes nothing. */
  lemma ErrorMessageTwice(img: Image)
    ensures ErrorMessage(img).0 == img.err
    ensures ErrorMessage(ErrorMessage(img).1).0 == ""
    ensures ErrorMessage(ErrorMessage(img).1).1 == ErrorMessage(img).1
  {
  }

  // ---------------------------------------------------------------------
  // Display parameters

  function SetGamma(img: Image, g: real): (r: Image)
    ensures r.gamma == g
    ensures r.(gamma := img.gamma) == img
  {
    img.(gamma := g)
  }

  function SetExposure(img: Image, e: real): (r: Image)
    ensures r.exposure == e
    ensures r.(exposure := img.exposure) == img
  {
    img.(exposure := e)
  }

  /** Gamma and exposure are independent: setting one in either order
      gives the same record, and the last setting of each wins. */
  lemma DisplayParamsIndependent(img: Image, g1: real, g2: real, e: real)
    ensures SetExposure(SetGamma(img, g1), e) == SetGamma(SetExposure(img, e), g1)
    ensures SetGamma(SetGamma(img, g1), g2) == SetGamma(img, g2)
    ensures SetGamma(img, img.gamma) == img && SetExposure(img, img.exposure) == img
  {
  }

  // ---------------------------------------------------------------------
  // Buffer addressing

  datatype AccessError = NoBuffer

  /** Offset of scanline `y` in the pixel buffer. */
  function Scanline(img: Image, y: int): (r: Result<int, AccessError>)
    ensures r.Success? <==> img.pixels.Some?
    ensures r.Success? ==> r.value == y * img.spec.scanlineBytes
  {
    if img.pixels.None? then Failure(NoBuffer) else Success(ScanlineOffset(img.spec, y))
  }

  /** Offset of the first byte of pixel (x, y) in the pixel buffer. */
  function PixelAddr(img: Image, x: int, y: int): (r: Result<int, AccessError>)
    ensures r.Success? <==> img.pixels.Some?
    ensures r.Success? ==> r.value == y * img.spec.scanlineBytes + x * img.spec.pixelBytes
  {
    if img.pixels.None? then Failure(NoBuffer) else Success(PixelOffset(img.spec, x, y))
  }

  /** The buffer, when present, is exactly as large as the spec says. */
  predicate WellSized(img: Image) {
    img.pixels.Some? ==> |img.pixels.value| == ImageBytes(img.spec)
  }

  /** Pixel (0, y) is the start of scanline y. */
  lemma PixelAddrColumnZero(img: Image, y: int)
    ensures PixelAddr(img, 0, y) == Scanline(img, y)
  {
    PixelZeroIsScanline(img.spec, y);
  }

  /** In a well-sized resident buffer with packed strides, every in-range
      pixel's bytes can be read, and distinct pixels never share bytes. */
  lemma PixelAddrInBuffer(img: Image, x: int, y: int)
    requires img.pixels.Some? && WellSized(img) && Packed(img.spec)
    requires InImage(img.spec, x, y)
    ensures PixelAddr(img, x, y).Success?
    ensures 0 <= PixelAddr(img, x, y).value
    ensures PixelAddr(img, x, y).value + img.spec.pixelBytes <= |img.pixels.value|
  {
    PixelInBounds(img.spec, x, y);
  }

  /** Scanline y addresses row y of the buffer read as `height` rows of
      `scanlineBytes` bytes. */
  lemma ScanlineAddrIsRow(img: Image, y: int)
    requires img.pixels.Some? && WellSized(img) && 0 <= y < img.spec.height
    ensures Scanline(img, y).Success?
    ensures var off := Scanline(img, y).value;
      0 <= off && off + img.spec.scanlineBytes <= |img.pixels.value|
      && img.pixels.value[off .. off + img.spec.scanlineBytes]
         == Scanlines(img.pixels.value, img.spec.scanlineBytes, img.spec.height)[y]
  {
    ScanlineIsRow(img.pixels.value, img.spec.scanlineBytes, img.spec.height, y);
  }

  lemma PixelAddrInjective(img: Image, x1: int, y1: int, x2: int, y2: int)
    requires img.pixels.Some? && Packed(img.spec)
    requires InImage(img.spec, x1, y1) && InImage(img.spec, x2, y2)
    ensures PixelAddr(img, x1, y1) == PixelAddr(img, x2, y2) <==> x1 == x2 && y1 == y2
  {
    if (x1, y1) != (x2, y2) {
      PixelsDisjoint(img.spec, x1, y1, x2, y2);
    }
  }

  // ---------------------------------------------------------------------
  // States

  /** The five states, in the priority order in which they are tested. */
  datatype State = Uninitialized | Broken | Ignorant | SpecKnown | Resident

  function Priority(st: State): nat {
    match st
    case Uninitialized => 0
    case Broken => 1
    case Ignorant => 2
    case SpecKnown => 3
    case Resident => 4
  }

  /** Holds a buffer whose contents are current. */
  predicate HasValidPixels(img: Image) {
    img.pixels.Some? && img.pixelsValid
  }

  /** Each state's test as the state comment writes it, taken on its own. */
  predicate TestAsWritten(img: Image, st: State) {
    match st
    case Uninitialized => |img.name| == 0
    case Broken => img.badFile
    case Ignorant => |img.name| > 0 && !img.badFile && !img.specValid
    case SpecKnown => img.specValid && img.pixels.None?
    case Resident => HasValidPixels(img)
  }

  /** The state tests applied in priority order, exactly as written;
      None when no test matches. */
  function ClassifyAsWritten(img: Image): (r: Option<State>)
    ensures r.Some? ==> TestAsWritten(img, r.value)
    ensures r.Some? ==> forall st :: Priority(st) < Priority(r.value) ==> !TestAsWritten(img, st)
    ensures r.None? ==> forall st :: !TestAsWritten(img, st)
  {
    if |img.name| == 0 then Some(Uninitialized)
    else if img.badFile then Some(Broken)
    else if !img.specValid then Some(Ignorant)
    else if img.pixels.None? then Some(SpecKnown)
    else if img.pixelsValid then Some(Resident)
    else None
  }

  /** A record with a known spec and an allocated but stale buffer passes
      none of the written tests. */
  lemma StaleBufferHasNoState(img: Image)
    requires |img.name| > 0 && !img.badFile && img.specValid
    requires img.pixels.Some? && !img.pixelsValid
    ensures ClassifyAsWritten(img).None?
  {
  }

  /** The tests with the spec-known state read as "the spec is known but the
      pixels are not current". */
  predicate Test(img: Image, st: State) {
    if st == SpecKnown then img.specValid && !HasValidPixels(img)
    else TestAsWritten(img, st)
  }

  /** `img` is in state `st`: `st`'s test holds and no earlier test does. */
  predicate InState(img: Image, st: State) {
    Test(img, st) && forall st' :: Priority(st') < Priority(st) ==> !Test(img, st')
  }

  /** The state of a record: the first test, in priority order, that holds. */
  function Classify(img: Image): (r: State)
    ensures InState(img, r)
  {
    if |img.name| == 0 then Uninitialized
    else if img.badFile then Broken
    else if !img.specValid then Ignorant
    else if !HasValidPixels(img) then SpecKnown
    else Resident
  }

  /** Every record is in exactly one state. */
  lemma ExactlyOneState(img: Image, st: State)
    ensures InState(img, st) <==> st == Classify(img)
  {
  }

  /** Resident means a named, openable file with a known spec and a
      current buffer: the buffer alone is not enough. */
  lemma ResidentNeedsBufferAndValidFlag(img: Image)
    ensures Classify(img) == Resident <==>
      |img.name| > 0 && !img.badFile && img.specValid && img.pixels.Some? && img.pixelsValid
  {
  }

  /** A buffer is present exactly when it is current. */
  predicate BufferMatchesFlag(img: Image) {
    img.pixels.Some? <==> img.pixelsValid
  }

  /** Where the buffer is present exactly when it is current, the written
      tests and the corrected ones agree. */
  lemma ClassifyAgreesWhenBufferMatchesFlag(img: Image)
    requires BufferMatchesFlag(img)
    ensures ClassifyAsWritten(img) == Some(Classify(img))
  {
  }

  /** The record invariant: a buffer is present exactly when it is current,
      and a file that could never be opened holds no buffer. */
  predicate Consistent(img: Image) {
    BufferMatchesFlag(img) && (img.badFile ==> img.pixels.None?)
  }

  // ---------------------------------------------------------------------
  // Header and pixel reads, against an abstract decoder

  /** What opening a file yields: its spec and subimage count. */
  datatype Header = Header(spec: Spec, nsubimages: nat)

  /** What a full decode of one subimage yields. */
  datatype Decoded = Decoded(header: Header, data: seq<byte>)

  /** The image library, seen from the viewer: open a named file for its
      header, or decode a subimage of it; either may fail with a message. */
  datatype Library = Library(
    open: string -> Result<Header, string>,
    decode: (string, int) -> Result<Decoded, string>
  )

  /** The record already holds subimage `subimage`, current. */
  predicate IsCurrent(img: Image, subimage: int) {
    HasValidPixels(img) && img.subimage == subimage
  }

  /** Name the record after `filename` and read the header. Reports whether
      the header could be read. Held pixels survive only while they still
      are subimage 0 of the same file with the same spec; a file that cannot
      be opened holds no pixels. */
  function InitSpec(img: Image, filename: string, lib: Library): (r: (bool, Image))
    ensures r.0 <==> lib.open(filename).Success?
    ensures r.1.name == filename
    ensures r.0 ==> (r.1.specValid && !r.1.badFile && r.1.subimage == 0
                     && r.1.spec == lib.open(filename).value.spec
                     && r.1.nsubimages == lib.open(filename).value.nsubimages)
    ensures !r.0 ==> (r.1.badFile && !r.1.specValid && r.1.err == lib.open(filename).error
                      && r.1.pixels.None? && !r.1.pixelsValid)
    ensures r.1.pixels.Some? ==> r.1.pixels == img.pixels
    ensures HasValidPixels(r.1) ==>
      HasValidPixels(img) && img.name == filename && img.spec == r.1.spec
      && img.subimage == r.1.subimage
    ensures forall k :: IsCurrent(r.1, k) ==> IsCurrent(img, k)
    ensures r.1.thumbnail.Some? || r.1.thumbnailValid ==> img.name == filename
    ensures r.1.thumbnail == img.thumbnail || r.1.thumbnail.None?
    ensures r.1.thumbnailValid ==> img.thumbnailValid
    ensures r.1.gamma == img.gamma && r.1.exposure == img.exposure
  {
    var sameFile := img.name == filename;
    var named := img.(name := filename,
                      thumbnail := if sameFile then img.thumbnail else None,
                      thumbnailValid := sameFile && img.thumbnailValid);
    match lib.open(filename)
    case Success(h) =>
      var keep := img.name == filename && img.spec == h.spec && img.subimage == 0;
      (true, named.(spec := h.spec, nsubimages := h.nsubimages, subimage := 0,
                    specValid := true, badFile := false,
                    pixels := if keep then img.pixels else None,
                    pixelsValid := keep && img.pixelsValid))
    case Failure(msg) =>
      (false, named.(badFile := true, specValid := false, err := msg,
                     pixels := None, pixelsValid := false))
  }

  /** Re-reading the header of the file a record already describes, when
      that header has not changed, leaves the record as it was. */
  lemma InitSpecSameHeaderIsNoOp(img: Image, lib: Library)
    requires img.specValid && !img.badFile && img.subimage == 0
    requires lib.open(img.name) == Success(Header(img.spec, img.nsubimages))
    ensures InitSpec(img, img.name, lib) == (true, img)
  {
  }

  /** Ensure subimage `subimage` is resident. The decode is skipped when the
      record already holds that subimage, current, unless `force`; a file
      that could never be opened is not tried again unless `force`. A failed
      decode records its message and leaves the held pixels alone. */
  function Read(img: Image, subimage: int, force: bool, lib: Library): (r: (bool, Image))
    ensures !force && IsCurrent(img, subimage) ==> r == (true, img)
    ensures !force && img.badFile && !IsCurrent(img, subimage) ==> r == (false, img)
    ensures r.0 ==> IsCurrent(r.1, subimage)
    ensures !r.0 ==> (!force && img.badFile && r.1 == img)
                     || (lib.decode(img.name, subimage).Failure?
                         && r.1 == img.(err := lib.decode(img.name, subimage).error))
    ensures r.1.name == img.name && r.1.gamma == img.gamma && r.1.exposure == img.exposure
  {
    if !force && IsCurrent(img, subimage) then (true, img)
    else if !force && img.badFile then (false, img)
    else match lib.decode(img.name, subimage)
      case Success(d) =>
        (true, img.(spec := d.header.spec, nsubimages := d.header.nsubimages,
                    subimage := subimage, specValid := true, badFile := false,
                    pixels := Some(d.data), pixelsValid := true))
      case Failure(msg) =>
        (false, img.(err := msg))
  }

  /** A current record is not decoded again: the outcome is the same
      whatever the library would have returned. */
  lemma ReadSkipsDecodeWhenCurrent(img: Image, subimage: int, lib1: Library, lib2: Library)
    requires IsCurrent(img, subimage)
    ensures Read(img, subimage, false, lib1) == Read(img, subimage, false, lib2)
    ensures Read(img, subimage, false, lib1).1 == img
  {
  }

  /** A broken record is not retried without `force`: the read fails and
      changes nothing, whatever the library would have returned. */
  lemma ReadBrokenNeedsForce(img: Image, subimage: int, lib1: Library, lib2: Library)
    requires Consistent(img) && img.badFile
    ensures Read(img, subimage, false, lib1) == (false, img)
    ensures Read(img, subimage, false, lib1) == Read(img, subimage, false, lib2)
  {
  }

  /** Otherwise the read consults the decoder and reports its outcome. */
  lemma ReadDecodesOtherwise(img: Image, subimage: int, force: bool, lib: Library)
    requires force || (!IsCurrent(img, subimage) && !img.badFile)
    ensures Read(img, subimage, force, lib).0 <==> lib.decode(img.name, subimage).Success?
    ensures Read(img, subimage, force, lib).0 ==>
      Read(img, subimage, force, lib).1.specValid && !Read(img, subimage, force, lib).1.badFile
    ensures lib.decode(img.name, subimage).Success? ==>
      Read(img, subimage, force, lib).1.pixels == Some(lib.decode(img.name, subimage).value.data)
    ensures lib.decode(img.name, subimage).Success? ==>
      Read(img, subimage, force, lib).1.spec == lib.decode(img.name, subimage).value.header.spec
      && Read(img, subimage, force, lib).1.nsubimages == lib.decode(img.name, subimage).value.header.nsubimages
  {
  }

  /** A failed read, even a forced one, keeps the pixels held before it and
      the state they put the record in. */
  lemma FailedReadKeepsPixels(img: Image, subimage: int, force: bool, lib: Library)
    requires !Read(img, subimage, force, lib).0
    ensures Read(img, subimage, force, lib).1.pixels == img.pixels
    ensures Classify(Read(img, subimage, force, lib).1) == Classify(img)
  {
  }

  /** A decode that returns as many bytes as its spec describes leaves a
      well-sized record in the resident state. */
  lemma ReadMakesResident(img: Image, subimage: int, force: bool, lib: Library)
    requires |img.name| > 0 && (force || (!IsCurrent(img, subimage) && !img.badFile))
    requires lib.decode(img.name, subimage).Success?
    requires var d := lib.decode(img.name, subimage).value;
             |d.data| == ImageBytes(d.header.spec)
    ensures Read(img, subimage, force, lib).0
    ensures WellSized(Read(img, subimage, force, lib).1)
    ensures Classify(Read(img, subimage, force, lib).1) == Resident
  {
  }

  /** A fresh record is ignorant; after its header read it knows its spec,
      or is broken if the file could not be opened. */
  lemma LifecycleFromName(filename: string, lib: Library)
    requires |filename| > 0
    ensures Classify(NewImage(filename)) == Ignorant
    ensures Classify(NewImage("")) == Uninitialized
    ensures var r := InitSpec(NewImage(filename), filename, lib);
            Classify(r.1) == (if r.0 then SpecKnown else Broken)
  {
  }

  /** Every operation on a record keeps the record invariant, so every
      record built from NewImage passes exactly one of the written tests. */
  lemma ConsistentPreserved(img: Image, filename: string, subimage: int, force: bool,
                            lib: Library, g: real, e: real)
    requires Consistent(img)
    ensures Consistent(NewImage(filename))
    ensures Consistent(InitSpec(img, filename, lib).1)
    ensures Consistent(Read(img, subimage, force, lib).1)
    ensures Consistent(ErrorMessage(img).1)
    ensures Consistent(SetGamma(img, g)) && Consistent(SetExposure(img, e))
    ensures ClassifyAsWritten(img) == Some(Classify(img))
  {
    ClassifyAgreesWhenBufferMatchesFlag(img);
  }

  /** The decoder returns as many bytes as the spec it reports describes. */
  predicate DecodeMatchesSpec(lib: Library, filename: string, subimage: int) {
    lib.decode(filename, subimage).Success? ==>
      |lib.decode(filename, subimage).value.data| == ImageBytes(lib.decode(filename, subimage).value.header.spec)
  }

  /** Header reads never leave a buffer that disagrees with the spec, and
      reads do not either when the decoder's data matches its spec. */
  lemma WellSizedPreserved(img: Image, filename: string, subimage: int, force: bool,
                           lib: Library, g: real, e: real)
    requires WellSized(img)
    ensures WellSized(NewImage(filename))
    ensures WellSized(InitSpec(img, filename, lib).1)
    ensures DecodeMatchesSpec(lib, img.name, subimage) ==> WellSized(Read(img, subimage, force, lib).1)
    ensures WellSized(ErrorMessage(img).1)
    ensures WellSized(SetGamma(img, g)) && WellSized(SetExposure(img, e))
  {
  }
}
