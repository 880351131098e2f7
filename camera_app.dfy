/**
  The state `CameraApp` keeps between user actions: the save target and the
  click history, with the operations that change them. The frame comes from
  the capture thread and is passed in; writing an image file and showing a
  warning are recorded, in order, in `effects`.
 */
module Camera {
  import opened Wrappers
  import opened Decimal
  import opened ClickSelection
  import opened FilenameCounter
  import PosixPath

  /** One pixel as the capture device delivers it (blue, green, red). */
  datatype Pixel = Bgr(b: bv8, g: bv8, r: bv8)

  /** A captured frame: rows of pixels. */
  type Frame = seq<seq<Pixel>>

  /** A composed image: the frame with the rectangle drawn over it, if any. */
  datatype Image = Image(frame: Frame, rect: Option<Rect>)

  /** What the application did outside its own state. */
  datatype Effect =
    | Written(path: string, image: Image)    // an image file was written to `path`
    | InvalidFileWarning(chosen: string)     // the "Invalid File" message box was shown

  /** The file name the save target starts from, in the user's home directory. */
  const InitialName: string := "image_001.png"

  class CameraApp {
    var filename: string
    var clicks: seq<Point>
    var saveLabel: string
    var effects: seq<Effect>

    /** The save button always names the current save target. */
    ghost predicate Valid()
      reads this
    {
      saveLabel == "Save " + filename
    }

    constructor (home: string)
      ensures Valid()
      ensures filename == PosixPath.Join(home, InitialName)
      ensures clicks == [] && effects == []
    {
      clicks := [];
      filename := PosixPath.Join(home, InitialName);
      saveLabel := "Save " + filename;
      effects := [];
    }

    /** A press on the preview records one more click. */
    method GetPos(p: Point)
      modifies this`clicks
      ensures clicks == old(clicks) + [p]
    {
      clicks := clicks + [p];
    }

    /**
      The image to show or save: the frame, with a rectangle between the last
      two clicks when there is an even number of them, at least two.
     */
    function GetImage(frame: Frame): (img: Image)
      reads this
      ensures img.frame == frame
      ensures img.rect.Some? <==> |clicks| >= 2 && |clicks| % 2 == 0
      ensures img.rect.Some? ==> img.rect.value == Rect(clicks[|clicks| - 2], clicks[|clicks| - 1])
    {
      Image(frame, SelectedRect(clicks))
    }

    /** Advances the counter in the save target and relabels the save button. */
    method IncrementFilename()
      requires Valid()
      modifies this`filename, this`saveLabel
      ensures Valid()
      ensures filename == NextFilename(old(filename))
      ensures HasDigit(filename)
      ensures Counter(filename) == Counter(old(filename)) + 1
    {
      CounterAdvances(filename);
      IncrementedHasDigit(filename);
      filename := NextFilename(filename);
      saveLabel := "Save " + filename;
    }

    /** Writes the current image to the save target, then advances the target. */
    method SaveImage(frame: Frame)
      requires Valid()
      modifies this`filename, this`saveLabel, this`effects
      ensures Valid()
      ensures effects == old(effects) + [Written(old(filename), GetImage(frame))]
      ensures filename == NextFilename(old(filename))
      ensures Counter(filename) == Counter(old(filename)) + 1
    {
      effects := effects + [Written(filename, GetImage(frame))];
      IncrementFilename();
    }

    /**
      Save-as with the name chosen in the file dialog: an empty choice only
      warns; otherwise the choice becomes the save target and is saved to.
     */
    method SaveImageAs(chosen: string, frame: Frame)
      requires Valid()
      modifies this`filename, this`saveLabel, this`effects
      ensures Valid()
      ensures chosen == [] ==>
                filename == old(filename) &&
                effects == old(effects) + [InvalidFileWarning(chosen)]
      ensures chosen != [] ==>
                effects == old(effects) + [Written(chosen, GetImage(frame))] &&
                filename == NextFilename(chosen)
    {
      if chosen != [] {
        filename := chosen;
        saveLabel := "Save " + filename;
        SaveImage(frame);
      } else {
        effects := effects + [InvalidFileWarning(chosen)];
      }
    }
  }
}
