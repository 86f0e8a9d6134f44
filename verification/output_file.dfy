/**
 The name of the file `write` produces. The code cuts the input name at its
 last `.` and appends ".hack" only when there is no `.` at all, so the usual
 input `Prog.asm` gives `Prog`, without the extension. `OutputNameIntended`
 replaces the extension by ".hack" in both cases.
 */
module OutputFile {
  import opened Strings

  /** The output name as written: the name plus ".hack" when it has no `.`, otherwise the text
      before its last `.`. */
  function OutputName(filename: string): (r: string)
    ensures '.' !in filename ==> r == filename + ".hack"
    ensures '.' in filename ==>
      |r| < |filename| && filename[..|r|] == r && filename[|r|] == '.' && '.' !in filename[|r| + 1..]
  {
    var ext := LastIndexOf(filename, '.');
    if ext == -1 then filename + ".hack" else filename[..ext]
  }

  /** The output name as evidently intended: the name without its extension, plus ".hack". */
  function OutputNameIntended(filename: string): (r: string)
    ensures EndsWith(r, ".hack")
    ensures '.' !in filename ==> r == filename + ".hack"
    ensures '.' in filename ==> r == OutputName(filename) + ".hack"
  {
    var ext := LastIndexOf(filename, '.');
    (if ext == -1 then filename else filename[..ext]) + ".hack"
  }

  /** For a name `stem.ext` whose extension holds no `.` (the stem may), the code yields the stem
      and the intended version the stem plus ".hack". */
  lemma OutputNameOfStem(stem: string, ext: string)
    requires '.' !in ext
    ensures OutputName(stem + "." + ext) == stem
    ensures OutputNameIntended(stem + "." + ext) == stem + ".hack"
  {
    var name := stem + "." + ext;
    assert name[|stem|] == '.';
    assert name[|stem| + 1..] == ext;
  }

  /** `Prog.asm` is written to `Prog`, a name without the ".hack" extension; the intended version
      writes `Prog.hack`. */
  lemma OutputNameDropsExtension()
    ensures OutputName("Prog.asm") == "Prog" && !EndsWith(OutputName("Prog.asm"), ".hack")
    ensures OutputNameIntended("Prog.asm") == "Prog.hack"
  {
    assert "Prog.asm" == "Prog" + "." + "asm";
    OutputNameOfStem("Prog", "asm");
  }
}
