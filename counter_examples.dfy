/**
  Worked examples of the save-target counter, including the initial name the
  application starts from.
 */
module CounterExamples {
  import opened Decimal
  import opened FilenameCounter
  import PosixPath

  /** "001" → "002": the first step of the initial name. */
  lemma FirstStep()
    ensures NextCounter("001") == "002"
  {
    ValueOfFirstCounter();
    assert ToDecimal(2) == "2";
    assert ZFill("2", 3) == "002" by { assert Zeros(2) == "00" by { assert Zeros(1) == "0"; } }
  }

  /** "2" → "3": same width. */
  lemma DigitStep()
    ensures NextCounter("2") == "3"
  {
    assert ValueOf("2") == 2 by { ValueOfSnoc("", '2'); assert "" + ['2'] == "2"; }
    assert ToDecimal(3) == "3";
  }

  /** "9" → "10": one digit wider. */
  lemma NineStep()
    ensures NextCounter("9") == "10"
  {
    assert ValueOf("9") == 9 by { ValueOfSnoc("", '9'); assert "" + ['9'] == "9"; }
    assert ToDecimal(10) == "10" by { assert ToDecimal(1) == "1"; }
  }

  lemma ValueOfPaddedNine()
    ensures ValueOf("009") == 9
  {
    ValueOfSnoc("", '9');
    assert "" + ['9'] == "9";
    ValueOfPadded(2, "9");
    assert Zeros(2) == "00" by { assert Zeros(1) == "0"; }
    assert Zeros(2) + "9" == "009";
  }

  /** "009" → "010": the zero padding keeps the width. */
  lemma PaddedStep()
    ensures NextCounter("009") == "010"
  {
    ValueOfPaddedNine();
    assert ToDecimal(10) == "10" by { assert ToDecimal(1) == "1"; }
    assert ZFill("10", 3) == "010" by { assert Zeros(1) == "0"; }
  }

  lemma ValueOfNines()
    ensures ValueOf("999") == 999
  {
    ValueOfSnoc("", '9');
    assert "" + ['9'] == "9";
    ValueOfSnoc("9", '9');
    assert "9" + ['9'] == "99";
    ValueOfSnoc("99", '9');
    assert "99" + ['9'] == "999";
  }

  /** "999" → "1000": `zfill` does not truncate. */
  lemma WideningStep()
    ensures NextCounter("999") == "1000"
  {
    ValueOfNines();
    assert ToDecimal(1000) == "1000" by {
      assert ToDecimal(1) == "1";
      assert ToDecimal(10) == "10";
      assert ToDecimal(100) == "100";
    }
  }

  /** In any directory, "image_001.png" advances to "image_002.png". */
  lemma ImageCounterAdvances(dir: string)
    ensures NextFilename(dir + "image_001.png") == dir + "image_002.png"
  {
    assert !HasDigit(".png");
    assert dir + "image_001.png" == (dir + "image_") + "001" + ".png";
    assert dir + "image_002.png" == (dir + "image_") + "002" + ".png";
    NextFilenameAround(dir + "image_", "001", ".png");
    FirstStep();
  }

  /** The initial save target `~/image_001.png` advances to `~/image_002.png`, whatever the home directory. */
  lemma InitialNameAdvances(home: string)
    ensures NextFilename(PosixPath.Join(home, "image_001.png")) == PosixPath.Join(home, "image_002.png")
  {
    ImageCounterAdvances(PosixPath.DirPrefix(home));
  }

  lemma ScanExample()
    ensures NextFilename("scan9.png") == "scan10.png"
  {
    assert !HasDigit(".png");
    NineStep();
    assert "scan9.png" == "scan" + "9" + ".png" && "scan10.png" == "scan" + "10" + ".png";
    NextFilenameAround("scan", "9", ".png");
  }

  lemma PaddedExample()
    ensures NextFilename("a009z.png") == "a010z.png"
  {
    assert !HasDigit("z.png");
    PaddedStep();
    assert "a009z.png" == "a" + "009" + "z.png" && "a010z.png" == "a" + "010" + "z.png";
    NextFilenameAround("a", "009", "z.png");
  }

  lemma WideningExample()
    ensures NextFilename("a999") == "a1000"
  {
    assert !HasDigit("");
    WideningStep();
    assert "a999" == "a" + "999" + "" && "a1000" == "a" + "1000" + "";
    NextFilenameAround("a", "999", "");
  }

  /** The digit search covers the whole path, so a digit in a directory name is the counter. */
  lemma DirectoryDigitExample()
    ensures NextFilename("/home/u2/photo.png") == "/home/u3/photo.png"
  {
    assert !HasDigit("/photo.png");
    DigitStep();
    assert "/home/u2/photo.png" == "/home/u" + "2" + "/photo.png";
    assert "/home/u3/photo.png" == "/home/u" + "3" + "/photo.png";
    NextFilenameAround("/home/u", "2", "/photo.png");
  }

  lemma PhotoSplit()
    ensures PosixPath.SplitExt("photo.png") == ("photo", ".png")
  {
    var p := "photo.png";
    assert p[5] == '.' && p[6] == 'p' && p[7] == 'n' && p[8] == 'g';
    assert PosixPath.RFind(p, PosixPath.Sep) == -1;
    assert PosixPath.RFind(p, PosixPath.ExtSep) == 5;
    assert p[0] != PosixPath.ExtSep;
    assert p[..5] == "photo" && p[5..] == ".png";
  }

  /** Without a digit, "_001" goes before the extension. */
  lemma NoDigitExample()
    ensures NextFilename("photo.png") == "photo_001.png"
  {
    assert !HasDigit("photo.png");
    PhotoSplit();
    NumberedWithoutDigits("photo.png");
  }
}
