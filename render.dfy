/** build_file: the text part (template rewriting) and the output path. */
module Render {
  import opened Text

  /** The substitutions, in Hash insertion order: placeholder and replacement. */
  type Substitutions = seq<(string, string)>

  /** The template after each placeholder, in order, is replaced everywhere in the
      output of the previous one. */
  function ApplyAll(text: string, subs: Substitutions): string
    decreases |subs|
  {
    if subs == [] then text
    else ApplyAll(ReplaceAll(text, subs[0].0, subs[0].1), subs[1..])
  }

  /** A path with the '/' characters at its end removed. */
  function TrimTrailingSlashes(a: string): (r: string)
    ensures r <= a
    ensures r == [] || r[|r| - 1] != '/'
    ensures forall k :: |r| <= k < |a| ==> a[k] == '/'
    decreases |a|
  {
    if a != [] && a[|a| - 1] == '/' then TrimTrailingSlashes(a[..|a| - 1]) else a
  }

  /** File.join of two path parts: when the right part starts with '/', every '/'
      at the end of the left part is dropped; otherwise a '/' is put between them
      unless the left part already ends in one. */
  function FileJoin(a: string, b: string): (r: string)
    ensures |b| <= |r| && r[|r| - |b|..] == b
    ensures var head := TrimTrailingSlashes(a);
      && head <= r && |head| + |b| <= |r| <= |a| + |b| + 1
      && forall k :: |head| <= k < |r| - |b| ==> r[k] == '/'
    ensures (b == [] || b[0] != '/') && (a == [] || a[|a| - 1] != '/') ==> r == a + "/" + b
    ensures (b == [] || b[0] != '/') && a != [] && a[|a| - 1] == '/' ==> r == a + b
  {
    if b != [] && b[0] == '/' then TrimTrailingSlashes(a) + b
    else if a != [] && a[|a| - 1] == '/' then a + b
    else a + "/" + b
  }

  /** Trimming removes exactly the '/' characters appended to a path that does not
      end in one. */
  lemma {:induction false} TrimAppendedSlashes(a: string, slashes: string)
    requires a == [] || a[|a| - 1] != '/'
    requires forall k :: 0 <= k < |slashes| ==> slashes[k] == '/'
    ensures TrimTrailingSlashes(a + slashes) == a
    decreases |slashes|
  {
    if slashes != [] {
      var init := slashes[..|slashes| - 1];
      assert (a + slashes)[..|a + slashes| - 1] == a + init;
      TrimAppendedSlashes(a, init);
    } else {
      assert a + slashes == a;
    }
  }

  /** The right part's leading '/' is the only one at the seam, however many the
      left part ends in. */
  lemma FileJoinCollapses(a: string, slashes: string, b: string)
    requires a == [] || a[|a| - 1] != '/'
    requires forall k :: 0 <= k < |slashes| ==> slashes[k] == '/'
    ensures FileJoin(a + slashes, "/" + b) == a + "/" + b
  {
    TrimAppendedSlashes(a, slashes);
  }

  /** The directory of a package: "src/" and the package with '.' turned into '/'. */
  function PackageDir(package: string): string {
    "src/" + ReplaceAll(package, ".", "/")
  }

  /** Where build_file writes: File.join(File.join(dest, "src/<package path>"), "<name>.java"). */
  function OutputPath(dest: string, package: string, name: string): string {
    FileJoin(FileJoin(dest, PackageDir(package)), name + ".java")
  }

  /** The rewritten template and the path build_file writes it to. */
  datatype Built = Built(path: string, text: string)

  /** build_file, with the template text read from the assets given as `template`:
      gsub! of each substitution over the text, in order. */
  method BuildFile(template: string, package: string, name: string, subs: Substitutions, dest: string)
    returns (out: Built)
    ensures out.text == ApplyAll(template, subs)
    ensures out.path == OutputPath(dest, package, name)
  {
    var to := FileJoin(dest, PackageDir(package));
    var text := template;
    var i := 0;
    while i < |subs|
      invariant 0 <= i <= |subs|
      invariant ApplyAll(text, subs[i..]) == ApplyAll(template, subs)
    {
      var (k, v) := subs[i];
      assert subs[i..][1..] == subs[i + 1..];
      text := ReplaceAll(text, k, v);
      i := i + 1;
    }
    out := Built(FileJoin(to, name + ".java"), text);
  }

  /** Substituting a list of pairs is substituting a prefix, then the rest over its output. */
  lemma {:induction false} ApplyAllAppend(text: string, first: Substitutions, second: Substitutions)
    ensures ApplyAll(text, first + second) == ApplyAll(ApplyAll(text, first), second)
    decreases |first|
  {
    if first != [] {
      assert (first + second)[1..] == first[1..] + second;
      ApplyAllAppend(ReplaceAll(text, first[0].0, first[0].1), first[1..], second);
    } else {
      assert first + second == second;
    }
  }

  /** Substituting a list is substituting its first `n` pairs, then the others. */
  lemma ApplyPrefixFirst(text: string, subs: Substitutions, n: nat)
    requires n <= |subs|
    ensures ApplyAll(text, subs) == ApplyAll(ApplyAll(text, subs[..n]), subs[n..])
  {
    assert subs == subs[..n] + subs[n..];
    ApplyAllAppend(text, subs[..n], subs[n..]);
  }

  /** A placeholder that does not occur in the current text is a no-op. */
  lemma ApplyAbsentKey(text: string, k: string, v: string, rest: Substitutions)
    requires k != [] && !Contains(text, k)
    ensures ApplyAll(text, [(k, v)] + rest) == ApplyAll(text, rest)
  {
    ReplaceAllAbsent(text, k, v);
    assert ([(k, v)] + rest)[1..] == rest;
  }

  /** Each step replaces every occurrence of its placeholder in the previous output. */
  lemma ApplyStepExhaustive(text: string, k: string, v: string, rest: Substitutions)
    requires k != []
    ensures var pieces := SplitOn(text, k);
      && Join(pieces, k) == text
      && (forall f :: f in pieces ==> !Contains(f, k))
      && ApplyAll(text, [(k, v)] + rest) == ApplyAll(Join(pieces, v), rest)
  {
    ReplaceAllExhaustive(text, k, v);
    assert ([(k, v)] + rest)[1..] == rest;
  }

  /** Replacing one character by another maps the text character by character. */
  lemma {:induction false} ReplaceCharIsMap(s: string, a: char, b: char)
    ensures |ReplaceAll(s, [a], [b])| == |s|
    ensures forall k :: 0 <= k < |s| ==>
      ReplaceAll(s, [a], [b])[k] == (if s[k] == a then b else s[k])
    decreases |s|
  {
    if s != [] {
      ReplaceCharIsMap(s[1..], a, b);
    }
  }

  /** The package directory has no '.', and turning '/' back into '.' recovers the
      package when the package had no '/'. */
  lemma PackageDirRoundTrip(package: string)
    requires '/' !in package
    ensures '.' !in ReplaceAll(package, ".", "/")
    ensures ReplaceAll(ReplaceAll(package, ".", "/"), "/", ".") == package
  {
    var dir := ReplaceAll(package, ".", "/");
    ReplaceCharIsMap(package, '.', '/');
    ReplaceCharIsMap(dir, '/', '.');
    assert forall k :: 0 <= k < |package| ==> package[k] != '/';
  }

  /** File.join puts one '/' between parts that carry none at the seam. */
  lemma FileJoinPlain(a: string, b: string)
    requires a == [] || a[|a| - 1] != '/'
    requires b != [] && b[0] != '/'
    ensures FileJoin(a, b) == a + "/" + b
  {
  }

  /** The directory of a '/'-free package whose last character is not '.' does not end in '/'. */
  lemma PackageDirLast(package: string)
    requires package != [] && package[|package| - 1] != '.' && '/' !in package
    ensures var pd := PackageDir(package); pd[|pd| - 1] != '/'
  {
    var dir := ReplaceAll(package, ".", "/");
    ReplaceCharIsMap(package, '.', '/');
    assert package[|package| - 1] in package;
    assert PackageDir(package)[|PackageDir(package)| - 1] == dir[|dir| - 1];
  }

  /** With a destination that does not end in '/' and a non-empty package and name,
      the file is dest/src/<package path>/<name>.java. */
  lemma OutputPathShape(dest: string, package: string, name: string)
    requires dest == [] || dest[|dest| - 1] != '/'
    requires package != [] && package[|package| - 1] != '.' && '/' !in package
    requires name != [] && name[0] != '/'
    ensures OutputPath(dest, package, name)
      == dest + "/" + PackageDir(package) + "/" + name + ".java"
  {
    var pd := PackageDir(package);
    FileJoinPlain(dest, pd);
    var to := dest + "/" + pd;
    PackageDirLast(package);
    FileJoinPlain(to, name + ".java");
  }

  /** Replacing one character by another distributes over concatenation. */
  lemma ReplaceCharAppend(a: string, b: string, x: char, y: char)
    ensures ReplaceAll(a + b, [x], [y]) == ReplaceAll(a, [x], [y]) + ReplaceAll(b, [x], [y])
  {
    ReplaceCharIsMap(a + b, x, y);
    ReplaceCharIsMap(a, x, y);
    ReplaceCharIsMap(b, x, y);
  }

  /** A two-segment package becomes its segments joined by '/'. */
  lemma PackageDirTwo(package: string, a: string, b: string)
    requires '.' !in a && '.' !in b && package == a + "." + b
    ensures ReplaceAll(package, ".", "/") == a + "/" + b
  {
    ReplaceCharAppend(a + ".", b, '.', '/');
    ReplaceCharAppend(a, ".", '.', '/');
    ContainsChar(a, '.');
    ReplaceAllAbsent(a, ".", "/");
    ContainsChar(b, '.');
    ReplaceAllAbsent(b, ".", "/");
    ReplaceAtMatch(".", [], "/");
    assert "." + [] == ".";
  }

  /** The directory of the framework's own package org.ruboto. */
  lemma RubotoPackageDir(package: string)
    requires package == "org.ruboto"
    ensures ReplaceAll(package, ".", "/") == "org/ruboto"
  {
    PackageDirTwo(package, "org", "ruboto");
  }

  /** The path of the Activity base class, assembled from its directory and name. */
  lemma ActivityPathText(pd: string, name: string)
    requires pd == "src/org/ruboto" && name == "RubotoActivity"
    ensures "." + "/" + pd + "/" + name + ".java" == "./src/org/ruboto/RubotoActivity.java"
  {
  }

  /** org.ruboto is a package the path lemmas accept: not empty, no trailing '.', no '/'. */
  lemma RubotoPackageShape(package: string)
    requires package == "org.ruboto"
    ensures package != [] && package[|package| - 1] != '.' && '/' !in package
  {
  }

  /** Where the Activity base class of the framework is written. */
  lemma RubotoActivityPath(package: string, name: string)
    requires package == "org.ruboto" && name == "RubotoActivity"
    ensures OutputPath(".", package, name) == "./src/org/ruboto/RubotoActivity.java"
  {
    RubotoPackageShape(package);
    OutputPathShape(".", package, name);
    RubotoPackageDir(package);
    ActivityPathText(PackageDir(package), name);
  }

  /** gsub at a match: the replacement, then the rest rewritten. */
  lemma ReplaceAtMatch(pat: string, rest: string, rep: string)
    requires pat != []
    ensures ReplaceAll(pat + rest, pat, rep) == rep + ReplaceAll(rest, pat, rep)
  {
    assert (pat + rest)[..|pat|] == pat;
    assert (pat + rest)[|pat|..] == rest;
  }

  /** gsub past a character that cannot start the pattern keeps that character. */
  lemma ReplaceAtOther(c: char, rest: string, pat: string, rep: string)
    requires pat != [] && c != pat[0]
    ensures ReplaceAll([c] + rest, pat, rep) == [c] + ReplaceAll(rest, pat, rep)
  {
    var s := [c] + rest;
    assert s[1..] == rest;
    if |s| < |pat| {
      ReplaceAllAbsent(rest, pat, rep);
    } else {
      assert s[..|pat|][0] != pat[0];
    }
  }

  /** First step of the example below: A-TOKEN is replaced at both places. */
  lemma ExampleFirstKey(a: string, b: string)
    requires a == "A-TOKEN" && b == "B-TOKEN"
    ensures ReplaceAll(a + ([' '] + (a + ([' '] + b))), a, "x") == "x" + ([' '] + ("x" + ([' '] + b)))
  {
    ReplaceAtMatch(a, [' '] + (a + ([' '] + b)), "x");
    ReplaceAtOther(' ', a + ([' '] + b), a, "x");
    ReplaceAtMatch(a, [' '] + b, "x");
    ReplaceAtOther(' ', b, a, "x");
    assert b == ['B'] + b[1..];
    ReplaceAtOther('B', b[1..], a, "x");
    ReplaceAllAbsent(b[1..], a, "x");
  }

  /** Second step of the example below: B-TOKEN is replaced in the first step's output. */
  lemma ExampleSecondKey(b: string)
    requires b == "B-TOKEN"
    ensures ReplaceAll(['x'] + ([' '] + (['x'] + ([' '] + b))), b, "y") == "x x y"
  {
    ReplaceAtOther('x', [' '] + (['x'] + ([' '] + b)), b, "y");
    ReplaceAtOther(' ', ['x'] + ([' '] + b), b, "y");
    ReplaceAtOther('x', [' '] + b, b, "y");
    ReplaceAtOther(' ', b, b, "y");
    ReplaceAtMatch(b, [], "y");
    assert b + [] == b;
    assert ReplaceAll([], b, "y") == [];
  }

  /** The substitution example: "A-TOKEN A-TOKEN B-TOKEN" with A-TOKEN -> x and then
      B-TOKEN -> y gives "x x y". */
  lemma SubstitutionExample()
    ensures ApplyAll("A-TOKEN A-TOKEN B-TOKEN", [("A-TOKEN", "x"), ("B-TOKEN", "y")]) == "x x y"
  {
    var a, b := "A-TOKEN", "B-TOKEN";
    var subs := [(a, "x"), (b, "y")];
    var t := a + ([' '] + (a + ([' '] + b)));
    assert "A-TOKEN A-TOKEN B-TOKEN" == t;
    ExampleFirstKey(a, b);
    ExampleSecondKey(b);
    var mid := "x" + ([' '] + ("x" + ([' '] + b)));
    assert ApplyAll(t, subs) == ApplyAll(mid, subs[1..]);
    assert ApplyAll(mid, subs[1..]) == ApplyAll(ReplaceAll(mid, b, "y"), []);
  }
}
