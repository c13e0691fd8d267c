/** The part of Rust's `Path` the tool relies on (`file_name`, `parent`,
    `with_file_name`, `join`, `file_stem`, `extension`, `set_extension`) and
    `build_output_path` (src/main.rs:388-417). */
module Paths {
  import opened Basics

  /** A relative or absolute path as its sequence of normal components
      (no root marker, no `.` or `..`); each component is a non-empty name. */
  type Path = seq<string>

  function FileName(p: Path): Option<string> {
    if p == [] then None else Some(p[|p| - 1])
  }

  /** Everything but the last component. */
  function Parent(p: Path): Path {
    if p == [] then [] else p[..|p| - 1]
  }

  /** `with_file_name`: replaces the last component, or adds one to an empty path. */
  function WithFileName(p: Path, name: string): (r: Path)
    ensures Parent(r) == Parent(p) && FileName(r) == Some(name)
  {
    Parent(p) + [name]
  }

  function Join(p: Path, name: string): (r: Path)
    ensures Parent(r) == p && FileName(r) == Some(name)
  {
    p + [name]
  }

  /** Where Rust splits a file name into stem and extension: at the last `.`,
      unless that dot is the first character (a hidden file such as `.bashrc`
      has no extension). */
  function ExtensionDot(name: string): (r: Option<nat>)
    ensures r.Some? ==> 0 < r.value < |name| && name[r.value] == '.' && '.' !in name[r.value + 1..]
    ensures r.None? ==> forall i :: 0 < i < |name| ==> name[i] != '.'
  {
    match LastIndex(name, '.')
    case None => None
    case Some(i) => if i == 0 then None else Some(i)
  }

  function FileStem(name: string): string {
    match ExtensionDot(name)
    case None => name
    case Some(i) => name[..i]
  }

  function Extension(name: string): Option<string> {
    match ExtensionDot(name)
    case None => None
    case Some(i) => Some(name[i + 1..])
  }

  /** Stem and extension put back together give the name again. */
  lemma StemAndExtension(name: string)
    ensures Extension(name).None? ==> FileStem(name) == name
    ensures Extension(name).Some? ==> name == FileStem(name) + "." + Extension(name).value
  {
    if ExtensionDot(name).Some? {
      var i := ExtensionDot(name).value;
      assert name == name[..i] + "." + name[i + 1..];
    }
  }

  /** `set_extension` on a file name: the stem, then `.ext` unless `ext` is empty. */
  function SetExtension(name: string, ext: string): string {
    FileStem(name) + (if ext == [] then [] else "." + ext)
  }

  /** `with_extension` on a path: only the last component changes. */
  function WithExtension(p: Path, ext: string): (r: Path)
    ensures |r| == |p| && Parent(r) == Parent(p)
  {
    if p == [] then p else Parent(p) + [SetExtension(p[|p| - 1], ext)]
  }

  /** A non-empty extension without a dot is what `extension` then reports,
      and the stem is kept. */
  lemma {:induction false} ExtensionOfSetExtension(name: string, ext: string)
    requires name != [] && ext != [] && '.' !in ext
    ensures Extension(SetExtension(name, ext)) == Some(ext)
    ensures FileStem(SetExtension(name, ext)) == FileStem(name)
  {
    var stem := FileStem(name);
    assert stem != [] by {
      if ExtensionDot(name).Some? {
        assert 0 < ExtensionDot(name).value;
      }
    }
    var s := SetExtension(name, ext);
    assert s == (stem + ".") + ext;
    LastIndexAppendWithout(stem + ".", ext, '.');
    assert LastIndex(stem + ".", '.') == Some(|stem|);
    assert ExtensionDot(s) == Some(|stem|);
    assert s[|stem| + 1..] == ext;
    assert s[..|stem|] == stem;
  }

  /** Putting text in front of a name that has an extension keeps the extension
      and extends the stem by the same text. */
  lemma {:induction false} ExtensionAfterPrefix(prefix: string, name: string)
    requires Extension(name).Some?
    ensures Extension(prefix + name) == Extension(name)
    ensures FileStem(prefix + name) == prefix + FileStem(name)
  {
    var i := ExtensionDot(name).value;
    assert '.' in name by { assert name[i] == '.'; }
    LastIndexPrepend(prefix, name, '.');
    assert LastIndex(name, '.') == Some(i);
    var s := prefix + name;
    assert s[|prefix| + i + 1..] == name[i + 1..];
    assert s[..|prefix| + i] == prefix + name[..i];
  }

  /** Every name that starts with `c_` keeps that prefix when its extension is set. */
  lemma SetExtensionKeepsPrefix(name: string, ext: string)
    requires |name| >= 2 && name[..2] == "c_"
    ensures |SetExtension(name, ext)| >= 2 && SetExtension(name, ext)[..2] == "c_"
  {
    if ExtensionDot(name).Some? {
      var i := ExtensionDot(name).value;
      assert name[0] == 'c' && name[1] == '_';
      assert i >= 2;
    }
  }

  /** The prefixed name of the output: `c_` and the source's file name, or `c_out`
      for a source without one. */
  function PrefixedName(src: Path): (name: string)
    ensures |name| >= 2 && name[..2] == "c_"
  {
    "c_" + FileName(src).GetOr("out")
  }

  /** `build_output_path`: the prefixed name goes next to the source when
      overwriting or when no output directory is given, into the output directory
      otherwise; a target extension then replaces the name's extension. Creating
      the output directory is a side effect left to the caller. */
  function BuildOutputPath(src: Path, outputDir: Option<Path>, overwrite: bool, targetExt: Option<string>)
    : (r: Path)
    ensures FileName(r).Some?
    ensures Parent(r) == if !overwrite && outputDir.Some? then outputDir.value else Parent(src)
    ensures |FileName(r).value| >= 2 && FileName(r).value[..2] == "c_"
    ensures targetExt.None? ==> FileName(r) == Some(PrefixedName(src))
  {
    var name := PrefixedName(src);
    var base := if overwrite then WithFileName(src, name)
                else if outputDir.Some? then Join(outputDir.value, name)
                else WithFileName(src, name);
    if targetExt.Some? then
      SetExtensionKeepsPrefix(name, targetExt.value);
      WithExtension(base, targetExt.value)
    else base
  }

  /** With a target extension the output has exactly that extension, and keeps
      the source's stem behind the `c_` prefix. */
  lemma BuildOutputPathExtension(src: Path, outputDir: Option<Path>, overwrite: bool, ext: string)
    requires ext != [] && '.' !in ext
    ensures var name := FileName(BuildOutputPath(src, outputDir, overwrite, Some(ext))).value;
      Extension(name) == Some(ext) &&
      FileStem(name) == FileStem(PrefixedName(src)) &&
      (FileName(src).Some? && Extension(FileName(src).value).Some? ==>
         FileStem(name) == "c_" + FileStem(FileName(src).value))
  {
    ExtensionOfSetExtension(PrefixedName(src), ext);
    if FileName(src).Some? && Extension(FileName(src).value).Some? {
      ExtensionAfterPrefix("c_", FileName(src).value);
    }
  }

  /** The backup name used when overwriting: the extension gains `.bak`
      (`x.png` becomes `x.png.bak`). */
  function BackupPath(src: Path): Path {
    var ext := if FileName(src).Some? then Extension(FileName(src).value).GetOr("") else "";
    WithExtension(src, ext + ".bak")
  }

  lemma BackupPathAppendsBak(src: Path)
    requires FileName(src).Some? && Extension(FileName(src).value).Some?
    ensures BackupPath(src) == Parent(src) + [FileName(src).value + ".bak"]
  {
    var name := FileName(src).value;
    var bak := Extension(name).value + ".bak";
    StemAndExtension(name);
    assert SetExtension(name, bak) == FileStem(name) + "." + bak;
    assert name + ".bak" == FileStem(name) + "." + bak;
    assert BackupPath(src) == Parent(src) + [SetExtension(name, bak)];
  }
}
