/**
 * `pathlib.Path` on POSIX as far as the configuration needs it: building a path from
 * text normalises it (repeated separators and `.` components disappear), and building
 * a path from a path returns it unchanged.
 */
module Paths {
  import opened Text

  /** A path: whether it starts at the root, and its components. */
  datatype Path = Path(absolute: bool, parts: seq<string>)

  /** What `Path(...)` accepts: text, or a path already built. */
  datatype PathLike = FromText(text: string) | FromPath(path: Path)

  /** A component pathlib keeps: not empty, not `.`, and without a separator. */
  predicate Component(s: string) {
    s != "" && s != "." && '/' !in s
  }

  /** Every component of a path built from text is a proper component. */
  predicate Normal(p: Path) {
    forall k :: 0 <= k < |p.parts| ==> Component(p.parts[k])
  }

  /**
   * The pieces of the text that pathlib keeps as components, in order (the pieces of
   * a split never hold the separator, so this drops exactly the empty and `.` pieces).
   */
  function KeepComponents(pieces: seq<string>): (r: seq<string>)
    ensures forall k :: 0 <= k < |r| ==> Component(r[k])
    ensures forall k :: 0 <= k < |r| ==> r[k] in pieces
  {
    if |pieces| == 0 then []
    else
      var rest := KeepComponents(pieces[1..]);
      if Component(pieces[0]) then [pieces[0]] + rest else rest
  }

  /** `PurePosixPath(text)`. */
  function Parse(text: string): (p: Path)
    ensures Normal(p)
  {
    Path(|text| > 0 && text[0] == '/', KeepComponents(Split(text, '/')))
  }

  /** `str(path)`. */
  function Render(p: Path): string {
    if p.absolute then "/" + Join(p.parts, "/")
    else if |p.parts| == 0 then "."
    else Join(p.parts, "/")
  }

  /** `Path(x)`. */
  function ToPath(x: PathLike): (p: Path)
    ensures x.FromText? ==> Normal(p)
    ensures x.FromPath? ==> p == x.path
  {
    match x
    case FromText(text) => Parse(text)
    case FromPath(path) => path
  }

  lemma {:induction false} KeepProperComponents(parts: seq<string>)
    requires forall k :: 0 <= k < |parts| ==> Component(parts[k])
    ensures KeepComponents(parts) == parts
  {
    if |parts| > 0 {
      KeepProperComponents(parts[1..]);
      assert [parts[0]] + parts[1..] == parts;
    }
  }

  lemma JoinStartsWithFirst(parts: seq<string>, sep: string)
    requires |parts| > 0 && |parts[0]| > 0
    ensures |Join(parts, sep)| > 0 && Join(parts, sep)[0] == parts[0][0]
  {
  }

  /** Reading the text of a normal path back gives the same path. */
  lemma ParseRender(p: Path)
    requires Normal(p)
    ensures Parse(Render(p)) == p
  {
    var s := Render(p);
    if |p.parts| > 0 {
      SplitJoin(p.parts, '/');
      KeepProperComponents(p.parts);
    }
    if p.absolute {
      assert s[0] == '/' && s[1..] == Join(p.parts, "/");
      if |p.parts| == 0 {
        assert Split(s[1..], '/') == [""];
        assert Split(s, '/') == ["", ""];
        assert KeepComponents(["", ""]) == KeepComponents([""]) == [];
      } else {
        assert Split(s, '/') == [""] + p.parts;
      }
    } else if |p.parts| == 0 {
      assert s == "." && s[1..] == "";
      assert Split(s[1..], '/') == [""];
      assert Split(s, '/') == [[s[0]] + ""];
      assert KeepComponents(["."]) == [];
    } else {
      JoinStartsWithFirst(p.parts, "/");
    }
  }

  /**
   * `Path(str(p)) == Path(p)`: a normal path and its text convert to the same path.
   * A corollary of `ParseRender`, stated in terms of `Path(...)` as `Config` uses it.
   */
  lemma TextOfPathConverts(p: Path)
    requires Normal(p)
    ensures ToPath(FromText(Render(p))) == ToPath(FromPath(p))
  {
    ParseRender(p);
  }

  /** Normalisation is idempotent: `Path(str(Path(x))) == Path(x)`. */
  lemma NormaliseTwice(x: PathLike)
    requires x.FromPath? ==> Normal(x.path)
    ensures Parse(Render(ToPath(x))) == ToPath(x)
  {
    ParseRender(ToPath(x));
  }
}
