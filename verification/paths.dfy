/**
 * POSIX `path.resolve` and `path.join` of Node.js, as the merger uses them to
 * compare file names with the output artifact and to build its three fixed
 * paths. The current working directory is a parameter (it is absolute).
 */
module Paths {
  import opened Text

  predicate IsAbsolute(p: string)
  {
    |p| > 0 && p[0] == '/'
  }

  /** A segment that survives normalisation unchanged. */
  predicate IsPlainSegment(seg: string)
  {
    seg != "" && seg != "." && seg != ".." && '/' !in seg
  }

  /**
   * Node's `normalizeString` for an absolute path: empty and `.` segments
   * vanish, `..` drops the segment before it and is ignored at the root.
   */
  function Collapse(segs: seq<string>, stack: seq<string>): (r: seq<string>)
    ensures (forall i :: 0 <= i < |stack| ==> IsPlainSegment(stack[i])) &&
            (forall i :: 0 <= i < |segs| ==> '/' !in segs[i])
            ==> forall i :: 0 <= i < |r| ==> IsPlainSegment(r[i])
    decreases |segs|
  {
    if segs == [] then stack
    else if segs[0] == "" || segs[0] == "." then Collapse(segs[1..], stack)
    else if segs[0] == ".." then Collapse(segs[1..], if stack == [] then [] else stack[..|stack| - 1])
    else Collapse(segs[1..], stack + [segs[0]])
  }

  /** The plain segments an absolute path normalises to. */
  function Segments(p: string): (r: seq<string>)
    ensures forall i :: 0 <= i < |r| ==> IsPlainSegment(r[i])
  {
    Collapse(Split(p, '/'), [])
  }

  /** `path.normalize` of an absolute path, without its trailing separator. */
  function NormalizeAbsolute(p: string): string
  {
    "/" + Join(Segments(p), '/')
  }

  /** `path.resolve(p)` with the working directory `cwd`. */
  function Resolve(cwd: string, p: string): (r: string)
    ensures IsAbsolute(r)
  {
    NormalizeAbsolute(if IsAbsolute(p) then p else cwd + "/" + p)
  }

  /** `path.join(dir, name)` for an absolute `dir`. */
  function JoinPath(dir: string, name: string): string
  {
    NormalizeAbsolute(dir + "/" + name)
  }

  /** Plain segments pass through `Collapse` untouched. */
  lemma {:induction false} CollapsePlain(segs: seq<string>, stack: seq<string>)
    requires forall i :: 0 <= i < |segs| ==> IsPlainSegment(segs[i])
    ensures Collapse(segs, stack) == stack + segs
  {
    if segs != [] {
      CollapsePlain(segs[1..], stack + [segs[0]]);
      assert stack + [segs[0]] + segs[1..] == stack + segs;
    }
  }

  /** The root `/` is in normal form: no segments. */
  lemma RootIsNormal()
    ensures Segments("/") == []
  {
    assert "/"[1..] == "" && Split("", '/') == [""];
    assert Split("/", '/') == ["", ""];
    assert Collapse(["", ""], []) == Collapse([""], []) == Collapse([], []);
  }

  /** `"/"` followed by plain segments is in normal form. */
  lemma NormalFormFixed(segs: seq<string>)
    requires forall i :: 0 <= i < |segs| ==> IsPlainSegment(segs[i])
    ensures Segments("/" + Join(segs, '/')) == segs
  {
    if segs == [] {
      assert "/" + Join(segs, '/') == "/";
      RootIsNormal();
    } else {
      var all := [""] + segs;
      assert Join(all, '/') == "/" + Join(segs, '/') by {
        assert all[1..] == segs;
      }
      assert Split("/" + Join(segs, '/'), '/') == all by {
        forall i | 0 <= i < |all| ensures '/' !in all[i] {
          if i > 0 { assert all[i] == segs[i - 1]; }
        }
        SplitJoin(all, '/');
      }
      assert Collapse(all, []) == segs by {
        assert all[1..] == segs;
        CollapsePlain(segs, []);
      }
    }
  }

  /** Normalising a normalised path changes nothing (`path.resolve` is idempotent). */
  lemma NormalizeIdempotent(p: string)
    ensures NormalizeAbsolute(NormalizeAbsolute(p)) == NormalizeAbsolute(p)
  {
    NormalFormFixed(Segments(p));
  }

  /**
   * A resolved path is in normal form, so resolving it again (with any
   * working directory) returns it unchanged.
   */
  lemma ResolveIdempotent(cwd: string, cwd': string, p: string)
    ensures NormalizeAbsolute(Resolve(cwd, p)) == Resolve(cwd, p)
    ensures Resolve(cwd', Resolve(cwd, p)) == Resolve(cwd, p)
  {
    NormalizeIdempotent(if IsAbsolute(p) then p else cwd + "/" + p);
  }

  /**
   * `path.join` of a normalised absolute directory and a plain file name is
   * the directory, one separator and the name (the root has its own).
   */
  lemma JoinPathChild(dir: string, name: string)
    requires NormalizeAbsolute(dir) == dir
    requires IsPlainSegment(name)
    ensures JoinPath(dir, name) == (if dir == "/" then "/" + name else dir + "/" + name)
  {
    var segs := Segments(dir);
    assert dir == "/" + Join(segs, '/');
    if segs == [] {
      var all := ["", "", name];
      assert all[1..] == ["", name] && all[1..][1..] == [name];
      assert Join(["", name], '/') == "/" + name;
      assert Join(all, '/') == dir + "/" + name;
      SplitJoin(all, '/');
      CollapsePlain([name], []);
      assert Collapse(all, []) == Collapse([name], []);
    } else {
      assert |Join(segs, '/')| >= |segs[0]| > 0;
      var all := [""] + (segs + [name]);
      assert all[1..] == segs + [name];
      JoinSnoc(segs, name, '/');
      assert Join(all, '/') == "/" + Join(segs + [name], '/');
      assert Join(all, '/') == dir + "/" + name;
      assert forall i :: 0 <= i < |all| ==> '/' !in all[i] by {
        forall i | 0 <= i < |all| ensures '/' !in all[i] {
          if i > 0 && i <= |segs| { assert all[i] == segs[i - 1]; }
        }
      }
      SplitJoin(all, '/');
      assert Split(dir + "/" + name, '/') == all;
      CollapsePlain(segs + [name], []);
      assert Collapse(all, []) == segs + [name];
      assert Segments(dir + "/" + name) == segs + [name];
    }
  }
}
