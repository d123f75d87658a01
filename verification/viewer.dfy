/**
  The viewer's image list: the loaded images in display order and the index
  of the one being viewed, -1 when none is.
 */
module ImageViewer {
  import opened Wrappers
  import opened Layout
  import opened IvImage

  datatype Viewer = Viewer(
    images: seq<Image>,
    current: int,   // index of the image being viewed, -1 if none
    last: int       // image viewed before it
  )

  /** The index invariant: -1 or a position in the list. */
  predicate Valid(v: Viewer) {
    -1 <= v.current < |v.images|
  }

  /** The list the viewer starts with. */
  function EmptyViewer(): (v: Viewer)
    ensures Valid(v) && |v.images| == 0
  {
    Viewer([], -1, -1)
  }

  /** The image being viewed, None when the list is empty or the index is
      negative. A non-negative index into a non-empty list must be in range. */
  function Cur(v: Viewer): (r: Option<Image>)
    requires |v.images| == 0 || v.current < |v.images|
    ensures r.None? <==> |v.images| == 0 || v.current < 0
    ensures r.Some? ==> 0 <= v.current < |v.images| && r.value == v.images[v.current]
  {
    if |v.images| == 0 then None
    else if v.current >= 0 then Some(v.images[v.current])
    else None
  }

  /** The spec of the image being viewed, None exactly when there is none. */
  function CurSpec(v: Viewer): (r: Option<Spec>)
    requires |v.images| == 0 || v.current < |v.images|
    ensures r.None? <==> Cur(v).None?
    ensures r.Some? ==> r.value == Cur(v).value.spec
  {
    match Cur(v)
    case None => None
    case Some(img) => Some(img.spec)
  }

  /** Under the invariant, "no current image" means exactly index -1. */
  lemma CurNoneIffMinusOne(v: Viewer)
    requires Valid(v)
    ensures Cur(v).None? <==> v.current == -1
    ensures CurSpec(v).None? <==> v.current == -1
  {
  }

  /** Append an image by name, reading its header when `getspec`. The
      index of the image being viewed does not change. */
  function AddImage(v: Viewer, filename: string, getspec: bool, lib: Library): (r: Viewer)
    requires Valid(v)
    ensures Valid(r)
    ensures |r.images| == |v.images| + 1 && r.images[..|v.images|] == v.images
    ensures r.images[|v.images|].name == filename
    ensures r.current == v.current && Cur(r) == Cur(v)
    ensures !getspec ==> r.images[|v.images|] == NewImage(filename)
    ensures getspec && lib.open(filename).Success? ==>
      r.images[|v.images|].spec == lib.open(filename).value.spec
      && r.images[|v.images|].nsubimages == lib.open(filename).value.nsubimages
      && r.images[|v.images|].specValid
    ensures getspec && lib.open(filename).Failure? ==> r.images[|v.images|].badFile
  {
    var img := NewImage(filename);
    var added := if getspec then InitSpec(img, filename, lib).1 else img;
    v.(images := v.images + [added])
  }

  /** An added image is never resident: its pixels are decoded only when it
      is read. */
  lemma AddedImageNotResident(v: Viewer, filename: string, getspec: bool, lib: Library)
    requires Valid(v)
    ensures Classify(AddImage(v, filename, getspec, lib).images[|v.images|]) != Resident
    ensures getspec && |filename| > 0 ==>
      (Classify(AddImage(v, filename, getspec, lib).images[|v.images|]) == SpecKnown
       <==> lib.open(filename).Success?)
  {
  }

  /** View image `n`: an index in range becomes current and the previous one
      is remembered; any other index leaves the viewer as it was. */
  function SelectImage(v: Viewer, n: int): (r: Viewer)
    requires Valid(v)
    ensures Valid(r) && r.images == v.images
    ensures 0 <= n < |v.images| ==> r.current == n && Cur(r) == Some(v.images[n]) && r.last == v.current
    ensures !(0 <= n < |v.images|) ==> r == v
  {
    if 0 <= n < |v.images| then Viewer(v.images, n, v.current) else v
  }

  /** Going back to the remembered index after a selection returns to the
      image that was being viewed before it. */
  lemma SelectThenBack(v: Viewer, n: int)
    requires Valid(v) && 0 <= v.current && 0 <= n < |v.images|
    ensures var w := SelectImage(v, n);
            SelectImage(w, w.last).current == v.current
            && Cur(SelectImage(w, w.last)) == Cur(v)
  {
  }

  /** Every image in the list satisfies the record invariant. */
  predicate AllConsistent(v: Viewer) {
    forall i :: 0 <= i < |v.images| ==> Consistent(v.images[i])
  }

  /** Adding and selecting images keep every listed record consistent. */
  lemma AllConsistentPreserved(v: Viewer, filename: string, getspec: bool, lib: Library, n: int)
    requires Valid(v) && AllConsistent(v)
    ensures AllConsistent(AddImage(v, filename, getspec, lib))
    ensures AllConsistent(SelectImage(v, n))
  {
    var img := NewImage(filename);
    ConsistentPreserved(img, filename, 0, false, lib, 1.0, 0.0);
  }
}
