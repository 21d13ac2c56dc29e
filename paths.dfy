/**
  Paths as `std::path::Path` sees them on Unix: components, the file name, the extension,
  `strip_prefix`; and what the program builds from them, the extension filter
  `is_file_with_ext` and the mirrored output path.
*/
module Paths {
  import opened Basics

  datatype Component = RootDir | CurDir | ParentDir | Normal(name: string)

  /** The text between the `/` separators of `s`, empty pieces included. */
  function Split(s: string): (parts: seq<string>)
    ensures |parts| >= 1
    decreases |s|
  {
    if s == [] then [""]
    else
      var rest := Split(s[1..]);
      if s[0] == '/' then [""] + rest else [[s[0]] + rest[0]] + rest[1..]
  }

  /** Components after the first: empty pieces and `.` are skipped, `..` is the parent directory. */
  function Normalize(parts: seq<string>): seq<Component>
    decreases |parts|
  {
    if parts == [] then []
    else
      (if parts[0] == "" || parts[0] == "." then []
       else if parts[0] == ".." then [ParentDir]
       else [Normal(parts[0])])
      + Normalize(parts[1..])
  }

  /** `Path::components`: a leading `/` is the root and a leading `.` piece the current directory. */
  function Components(p: string): seq<Component> {
    PartsComponents(|p| > 0 && p[0] == '/', Split(p))
  }

  function PartsComponents(rooted: bool, parts: seq<string>): seq<Component>
    requires parts != []
  {
    if rooted then [RootDir] + Normalize(parts[1..])
    else if parts[0] == "." then [CurDir] + Normalize(parts[1..])
    else Normalize(parts)
  }

  /** `Path::file_name`: the last component when it is a normal one. */
  function FileName(p: string): Option<string> {
    var cs := Components(p);
    if cs != [] && cs[|cs| - 1].Normal? then Some(cs[|cs| - 1].name) else None
  }

  /** The index of the last `.` in `name`. */
  function LastDot(name: string): (r: Option<nat>)
    ensures r.None? ==> forall k :: 0 <= k < |name| ==> name[k] != '.'
    ensures r.Some? ==> r.value < |name| && name[r.value] == '.'
                        && forall k :: r.value < k < |name| ==> name[k] != '.'
    decreases |name|
  {
    if name == [] then None
    else if name[|name| - 1] == '.' then Some(|name| - 1)
    else LastDot(name[..|name| - 1])
  }

  /**
    `Path::extension`: the text after the last `.` of the file name, unless the name has no
    dot or its only dot is the first character (a name such as `.rs` has no extension).
  */
  function Extension(p: string): Option<string> {
    match FileName(p)
    case None => None
    case Some(name) =>
      match LastDot(name)
      case None => None
      case Some(j) => if j == 0 then None else Some(name[j + 1..])
  }

  /** `is_file_with_ext`: false without an extension, otherwise whether the extension is `fileExt`. */
  function IsFileWithExt(p: string, fileExt: string): bool {
    match Extension(p)
    case None => false
    case Some(e) => e == fileExt
  }

  /** The pieces of a path, joined with `/`. */
  function Join(names: seq<string>): string
    decreases |names|
  {
    if names == [] then ""
    else if |names| == 1 then names[0]
    else names[0] + "/" + Join(names[1..])
  }

  function ComponentText(c: Component): string {
    match c
    case RootDir => ""
    case CurDir => "."
    case ParentDir => ".."
    case Normal(n) => n
  }

  function Texts(cs: seq<Component>): seq<string>
    decreases |cs|
  {
    if cs == [] then [] else [ComponentText(cs[0])] + Texts(cs[1..])
  }

  /** How a path made of the components `cs` displays. */
  function Display(cs: seq<Component>): string {
    if cs != [] && cs[0] == RootDir then "/" + Join(Texts(cs[1..])) else Join(Texts(cs))
  }

  /** `Path::strip_prefix`: the rest of `p` when the components of `base` begin those of `p`. */
  function StripPrefix(p: string, base: string): Option<string> {
    var cs, bs := Components(p), Components(base);
    if |bs| <= |cs| && cs[..|bs|] == bs then Some(Display(cs[|bs|..])) else None
  }

  /**
    `format!("{output_folder}/{}", p.strip_prefix(&source_folder).unwrap().display())`;
    `None` stands for the panic of `unwrap` on a path outside the source folder.
  */
  function OutputPath(outputFolder: string, p: string, sourceFolder: string): Option<string> {
    match StripPrefix(p, sourceFolder)
    case None => None
    case Some(rel) => Some(outputFolder + "/" + rel)
  }

  // ---------------------------------------------------------------------------
  // Lemmas

  /** A file or directory name as a directory walk produces it: one non-empty piece, not `.` or `..`. */
  predicate PlainName(n: string) {
    n != "" && n != "." && n != ".." && forall k :: 0 <= k < |n| ==> n[k] != '/'
  }

  lemma {:induction false} SplitAppend(a: string, b: string)
    ensures Split(a + "/" + b) == Split(a) + Split(b)
    decreases |a|
  {
    if a == [] {
      assert a + "/" + b == "/" + b;
      assert ("/" + b)[1..] == b;
    } else {
      assert (a + "/" + b)[1..] == a[1..] + "/" + b;
      assert (a + "/" + b)[0] == a[0];
      SplitAppend(a[1..], b);
    }
  }

  lemma {:induction false} SplitPlain(n: string)
    requires forall k :: 0 <= k < |n| ==> n[k] != '/'
    ensures Split(n) == [n]
    decreases |n|
  {
    if n != [] {
      SplitPlain(n[1..]);
      assert n == [n[0]] + n[1..];
    }
  }

  lemma {:induction false} NormalizeAppend(xs: seq<string>, ys: seq<string>)
    ensures Normalize(xs + ys) == Normalize(xs) + Normalize(ys)
    decreases |xs|
  {
    if xs == [] {
      assert xs + ys == ys;
    } else {
      assert (xs + ys)[0] == xs[0];
      assert (xs + ys)[1..] == xs[1..] + ys;
      NormalizeAppend(xs[1..], ys);
    }
  }

  function Normals(names: seq<string>): seq<Component>
    decreases |names|
  {
    if names == [] then [] else [Normal(names[0])] + Normals(names[1..])
  }

  lemma {:induction false} SplitJoin(names: seq<string>)
    requires names != [] && forall k :: 0 <= k < |names| ==> PlainName(names[k])
    ensures Split(Join(names)) == names
    ensures Normalize(names) == Normals(names)
    decreases |names|
  {
    SplitPlain(names[0]);
    if |names| > 1 {
      SplitJoin(names[1..]);
      SplitAppend(names[0], Join(names[1..]));
      assert names == [names[0]] + names[1..];
    }
  }

  /** The components of `base/rest` are those of `base` followed by those of `rest`'s pieces. */
  lemma ComponentsOfJoin(base: string, rest: string)
    requires base != ""
    ensures Components(base + "/" + rest) == Components(base) + Normalize(Split(rest))
  {
    var p := base + "/" + rest;
    assert Split(p) == Split(base) + Split(rest) by { SplitAppend(base, rest); }
    assert p[0] == base[0];
    PartsComponentsAppend(base[0] == '/', Split(base), Split(rest));
  }

  lemma PartsComponentsAppend(rooted: bool, bp: seq<string>, rp: seq<string>)
    requires bp != []
    ensures PartsComponents(rooted, bp + rp) == PartsComponents(rooted, bp) + Normalize(rp)
  {
    assert (bp + rp)[0] == bp[0];
    assert (bp + rp)[1..] == bp[1..] + rp;
    NormalizeAppend(bp[1..], rp);
    NormalizeAppend(bp, rp);
  }

  lemma {:induction false} NormalsText(names: seq<string>)
    ensures Texts(Normals(names)) == names
    decreases |names|
  {
    if names != [] {
      NormalsText(names[1..]);
    }
  }

  /** The file name of `dir/name` is `name`. */
  lemma FileNameOfJoin(dir: string, name: string)
    requires dir != "" && PlainName(name)
    ensures FileName(dir + "/" + name) == Some(name)
  {
    ComponentsOfJoin(dir, name);
    SplitJoin([name]);
  }

  /**
    A file `dir/stem.ext` passes the filter for extension `e` exactly when `e` is `ext`
    (for a non-empty stem and a non-empty extension without dots).
  */
  lemma IsFileWithExtOfName(dir: string, stem: string, ext: string, e: string)
    requires dir != "" && stem != "" && ext != ""
    requires forall k :: 0 <= k < |stem| ==> stem[k] != '/'
    requires forall k :: 0 <= k < |ext| ==> ext[k] != '/' && ext[k] != '.'
    ensures IsFileWithExt(dir + "/" + stem + "." + ext, e) <==> e == ext
  {
    var name := stem + "." + ext;
    assert dir + "/" + stem + "." + ext == dir + "/" + name;
    assert forall k :: 0 <= k < |name| ==> name[k] != '/' by {
      forall k | 0 <= k < |name| ensures name[k] != '/' {
        if k > |stem| { assert name[k] == ext[k - |stem| - 1]; }
      }
    }
    assert |name| >= 3;
    assert name[|stem|] == '.';
    assert name != ".." by { assert |name| >= 3; }
    FileNameOfJoin(dir, name);
    assert LastDot(name).Some?;
    var j := LastDot(name).value;
    assert j == |stem|;
    assert name[j + 1..] == ext;
  }

  /**
    A file `dir/stem.ext` whose extension is not `rs` does not pass the `rs` filter. The stem
    may hold dots and the extension may be empty (`a.`); `dir/..` is not a file at all.
  */
  lemma OtherExtensionRejected(dir: string, stem: string, ext: string)
    requires dir != "" && stem != "" && ext != "rs"
    requires forall k :: 0 <= k < |stem| ==> stem[k] != '/'
    requires forall k :: 0 <= k < |ext| ==> ext[k] != '/' && ext[k] != '.'
    ensures !IsFileWithExt(dir + "/" + stem + "." + ext, "rs")
  {
    if ext != "" {
      IsFileWithExtOfName(dir, stem, ext, "rs");
    } else {
      var name := stem + ".";
      assert dir + "/" + stem + "." + ext == dir + "/" + name;
      if name == ".." {
        ComponentsOfJoin(dir, name);
        assert Split(name) == [".."] by { SplitPlain(name); }
        assert Normalize([".."]) == [ParentDir];
      } else {
        assert forall k :: 0 <= k < |name| ==> name[k] != '/' by {
          forall k | 0 <= k < |name| ensures name[k] != '/' {
            if k == |stem| { assert name[k] == '.'; } else { assert name[k] == stem[k]; }
          }
        }
        assert name != "." by { assert |name| >= 2; }
        FileNameOfJoin(dir, name);
        assert name[|stem|] == '.';
        var j := LastDot(name).value;
        assert j == |stem|;
        assert name[j + 1..] == "";
      }
    }
  }

  /** A file name without a dot has no extension, so it never passes the filter. */
  lemma NoDotNoExtension(dir: string, name: string, e: string)
    requires dir != "" && name != ""
    requires forall k :: 0 <= k < |name| ==> name[k] != '/' && name[k] != '.'
    ensures !IsFileWithExt(dir + "/" + name, e)
  {
    assert name[0] != '.';
    FileNameOfJoin(dir, name);
  }

  /** A name whose only dot is its first character (`.rs`) has no extension either. */
  lemma DotFileNoExtension(dir: string, name: string, e: string)
    requires dir != "" && name != ""
    requires forall k :: 0 <= k < |name| ==> name[k] != '/' && name[k] != '.'
    ensures !IsFileWithExt(dir + "/." + name, e)
  {
    var n := "." + name;
    assert dir + "/." + name == dir + "/" + n;
    assert forall k :: 0 <= k < |n| ==> n[k] != '/' by {
      forall k | 0 <= k < |n| ensures n[k] != '/' {
        if k > 0 { assert n[k] == name[k - 1]; }
      }
    }
    assert n[1] == name[0] != '.';
    FileNameOfJoin(dir, n);
    assert n[0] == '.';
    assert LastDot(n).Some?;
    assert LastDot(n).value == 0;
  }

  /**
    The output path of a file found under the source folder is the output folder, a `/`,
    and the file's path relative to the source folder.
  */
  lemma OutputPathMirrors(outputFolder: string, sourceFolder: string, names: seq<string>)
    requires sourceFolder != ""
    requires names != [] && forall k :: 0 <= k < |names| ==> PlainName(names[k])
    ensures OutputPath(outputFolder, sourceFolder + "/" + Join(names), sourceFolder)
            == Some(outputFolder + "/" + Join(names))
  {
    var p := sourceFolder + "/" + Join(names);
    ComponentsOfJoin(sourceFolder, Join(names));
    SplitJoin(names);
    var cs, bs := Components(p), Components(sourceFolder);
    assert cs == bs + Normals(names);
    assert cs[..|bs|] == bs && cs[|bs|..] == Normals(names);
    NormalsText(names);
    assert Normals(names)[0] == Normal(names[0]);
  }
}
