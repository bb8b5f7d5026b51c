/**
 * StringUtils::PathRemoveRelativeParts: the segments of a path whose
 * separators are already '/' are run through a stack that drops "." and
 * lets ".." cancel the segment before it, and the stack is joined back
 * with '/', behind a '/' when the path was rooted.
 */
module RelativeParts {

  /** A segment that is neither "." nor "..". */
  predicate IsOrdinary(segment: string) {
    segment != "." && segment != ".."
  }

  /** What one segment does to the stack (lines 260-285). */
  function Step(stack: seq<string>, bit: string): (r: seq<string>)
    ensures |r| <= |stack| + 1
  {
    if bit == ".." then
      if |stack| > 0 then
        if stack[|stack| - 1] == ".." then stack + [".."] else stack[..|stack| - 1]
      else [".."]
    else if bit == "." then stack
    else stack + [bit]
  }

  /** The stack after the segment loop has consumed `components`. */
  function Resolve(components: seq<string>): (r: seq<string>)
    ensures |r| <= |components|
    decreases |components|
  {
    if components == [] then []
    else Step(Resolve(components[..|components| - 1]), components[|components| - 1])
  }

  /**
   * The shape the stack keeps: no ".", and every ".." comes before every
   * other segment, so the ".." entries form a prefix.
   */
  predicate Canonical(stack: seq<string>) {
    (forall k | 0 <= k < |stack| :: stack[k] != ".")
    && (forall i, j | 0 <= i < j < |stack| :: stack[j] == ".." ==> stack[i] == "..")
  }

  /** One step keeps the stack canonical. */
  lemma StepCanonical(stack: seq<string>, bit: string)
    requires Canonical(stack)
    ensures Canonical(Step(stack, bit))
  {
    var r := Step(stack, bit);
    if bit == ".." && |stack| > 0 && stack[|stack| - 1] == ".." {
      forall i, j | 0 <= i < j < |r| && r[j] == ".." ensures r[i] == ".." {
        if j < |stack| {
        } else if i < |stack| - 1 {
          assert stack[|stack| - 1] == "..";
        }
      }
    }
  }

  /** Throughout the loop the stack is canonical. */
  lemma {:induction false} ResolveInvariant(components: seq<string>)
    ensures Canonical(Resolve(components))
    decreases |components|
  {
    if components != [] {
      var front := components[..|components| - 1];
      ResolveInvariant(front);
      StepCanonical(Resolve(front), components[|components| - 1]);
    }
  }

  /** A ".." right after an ordinary segment cancels it. */
  lemma DotDotCancels(components: seq<string>, segment: string)
    requires IsOrdinary(segment)
    ensures Resolve(components + [segment, ".."]) == Resolve(components)
  {
    var c1 := components + [segment];
    assert (components + [segment, ".."])[..|c1|] == c1;
    assert c1[..|components|] == components;
  }

  /** A ".." on an empty stack, or on a stack whose top is "..", is kept. */
  lemma DotDotKept(components: seq<string>)
    requires Resolve(components) == [] || Resolve(components)[|Resolve(components)| - 1] == ".."
    ensures Resolve(components + [".."]) == Resolve(components) + [".."]
  {
    assert (components + [".."])[..|components|] == components;
  }

  /** A "." changes nothing. */
  lemma DotSkipped(components: seq<string>)
    ensures Resolve(components + ["."]) == Resolve(components)
  {
    assert (components + ["."])[..|components|] == components;
  }

  /** Running the loop on a canonical stack gives it back. */
  lemma {:induction false} ResolveCanonical(stack: seq<string>)
    requires Canonical(stack)
    ensures Resolve(stack) == stack
    decreases |stack|
  {
    if stack != [] {
      var front := stack[..|stack| - 1];
      var last := stack[|stack| - 1];
      assert Canonical(front);
      ResolveCanonical(front);
      assert Resolve(stack) == Step(front, last);
      if last == ".." && front != [] {
        assert stack[|front| - 1] == "..";
      }
      assert front + [last] == stack;
    }
  }

  /** Removing relative parts twice is removing them once. */
  lemma ResolveIdempotent(components: seq<string>)
    ensures Resolve(Resolve(components)) == Resolve(components)
  {
    ResolveInvariant(components);
    ResolveCanonical(Resolve(components));
  }

  /** The segments joined with '/' (`path /= e` from an empty path): the
      result starts with the first segment and ends with the last. */
  function Join(segments: seq<string>): (r: string)
    ensures |segments| > 0 ==> |segments[0]| <= |r| && r[..|segments[0]|] == segments[0]
    ensures |segments| > 0 ==> |segments[|segments| - 1]| <= |r| && r[|r| - |segments[|segments| - 1]|..] == segments[|segments| - 1]
    decreases |segments|
  {
    if |segments| == 0 then ""
    else if |segments| == 1 then segments[0]
    else Join(segments[..|segments| - 1]) + "/" + segments[|segments| - 1]
  }

  /** Splitting at every '/', keeping empty segments: the partner of Join. */
  function Split(s: string): (r: seq<string>)
    ensures |r| >= 1
    decreases |s|
  {
    if s == [] then [""]
    else if s[|s| - 1] == '/' then Split(s[..|s| - 1]) + [""]
    else
      var front := Split(s[..|s| - 1]);
      front[..|front| - 1] + [front[|front| - 1] + [s[|s| - 1]]]
  }

  predicate NoSlash(segment: string) {
    forall k | 0 <= k < |segment| :: segment[k] != '/'
  }

  lemma {:induction false} SplitSegment(prefix: string, segment: string)
    requires NoSlash(segment)
    ensures Split(prefix + segment) == Split(prefix)[..|Split(prefix)| - 1] + [Split(prefix)[|Split(prefix)| - 1] + segment]
    decreases |segment|
  {
    if segment == [] {
      assert prefix + segment == prefix;
      var sp := Split(prefix);
      assert sp[|sp| - 1] + segment == sp[|sp| - 1];
      assert sp[..|sp| - 1] + [sp[|sp| - 1]] == sp;
    } else {
      var front := segment[..|segment| - 1];
      assert (prefix + segment)[..|prefix + segment| - 1] == prefix + front;
      SplitSegment(prefix, front);
      var sp := Split(prefix);
      var sf := Split(prefix + front);
      assert sf[..|sf| - 1] == sp[..|sp| - 1];
      assert sf[|sf| - 1] + [segment[|segment| - 1]] == sp[|sp| - 1] + segment;
    }
  }

  /** Splitting the join of segments without '/' gives the segments back. */
  lemma {:induction false} SplitJoin(segments: seq<string>)
    requires |segments| >= 1
    requires forall k | 0 <= k < |segments| :: NoSlash(segments[k])
    ensures Split(Join(segments)) == segments
    decreases |segments|
  {
    var last := segments[|segments| - 1];
    if |segments| == 1 {
      SplitSegment([], last);
      assert [] + last == last;
    } else {
      var front := segments[..|segments| - 1];
      assert front + [last] == segments;
      SplitJoin(front);
      var j := Join(front) + "/";
      assert Split(j) == Split(Join(front)) + [""];
      SplitSegment(j, last);
      assert Split(j)[..|Split(j)| - 1] == front;
      assert [""][0] + last == last;
    }
  }

  /**
   * Lines 252-294. `path` is the path after FileSystem::NormalizePath and
   * `components` its String::Split at '/'; the result is the new path.
   */
  method PathRemoveRelativeParts(path: string, components: seq<string>) returns (result: string)
    ensures result == (if |path| > 0 && path[0] == '/' then "/" + Join(Resolve(components)) else Join(Resolve(components)))
  {
    var stack: seq<string> := [];
    var n := 0;
    while n < |components|
      invariant 0 <= n <= |components|
      invariant stack == Resolve(components[..n])
      invariant Canonical(stack) && |stack| <= n
    {
      var bit := components[n];
      assert components[..n + 1][..n] == components[..n];
      ResolveInvariant(components[..n + 1]);
      if bit == ".." {
        if |stack| > 0 {
          var popped := stack[|stack| - 1];
          stack := stack[..|stack| - 1];
          if popped == ".." {
            stack := stack + [popped];
            stack := stack + [bit];
          }
        } else {
          stack := stack + [bit];
        }
      } else if bit == "." {
        // Skip /./
      } else {
        stack := stack + [bit];
      }
      n := n + 1;
    }
    assert components[..n] == components;

    var isRooted := |path| > 0 && path[0] == '/';
    result := "";
    var i := 0;
    while i < |stack|
      invariant 0 <= i <= |stack|
      invariant result == Join(stack[..i])
    {
      assert stack[..i + 1][..i] == stack[..i];
      if i == 0 {
        result := stack[i];
      } else {
        result := result + "/" + stack[i];
      }
      i := i + 1;
    }
    assert stack[..i] == stack;
    if isRooted {
      result := "/" + result;
    }
  }

  // Four paths given as their segments without empty ones.

  /** "a/./b" becomes "a/b". */
  lemma DotExample()
    ensures Join(Resolve(["a", ".", "b"])) == "a/b"
  {
    assert ["a", ".", "b"][..2] == ["a", "."] && ["a", "."][..1] == ["a"];
    assert Resolve(["a", "."]) == ["a"];
    assert Resolve(["a", ".", "b"]) == ["a", "b"];
    assert ["a", "b"][..1] == ["a"];
    assert Join(["a"]) == "a";
  }

  /** "a/../b" becomes "b". */
  lemma DotDotExample()
    ensures Join(Resolve(["a", "..", "b"])) == "b"
  {
    assert ["a", "..", "b"][..2] == ["a", ".."] && ["a", ".."][..1] == ["a"];
  }

  /** "../../a" stays as it is. */
  lemma LeadingDotDotsExample()
    ensures Join(Resolve(["..", "..", "a"])) == "../../a"
  {
    assert ["..", "..", "a"][..2] == ["..", ".."] && ["..", ".."][..1] == [".."];
    assert Resolve(["..", ".."]) == ["..", ".."];
    assert Resolve(["..", "..", "a"]) == ["..", "..", "a"];
    assert ["..", "..", "a"][..2] == ["..", ".."];
  }

  /** The rooted "/a/../../b" becomes "/../b". */
  lemma RootedExample()
    ensures "/" + Join(Resolve(["a", "..", "..", "b"])) == "/../b"
  {
    assert ["a", "..", "..", "b"][..3] == ["a", "..", ".."] && ["a", "..", ".."][..2] == ["a", ".."];
    assert ["a", ".."][..1] == ["a"];
    assert Resolve(["a", "..", ".."]) == [".."];
    assert Resolve(["a", "..", "..", "b"]) == ["..", "b"];
    assert ["..", "b"][..1] == [".."];
  }
}
