/** The names a compilation unit derives from its package and its main type. */
module SourceNames {
  import opened Wrappers

  /** A compilation unit's package declaration and main type name; `None` is the
      default package. */
  datatype UnitNames = UnitNames(package: Option<string>, mainTypeName: string)

  const JavaSuffix: string := ".java"

  /** `getQualifiedMainTypeName` */
  function QualifiedMainTypeName(u: UnitNames): (r: string)
    ensures u.package.None? ==> r == u.mainTypeName
    ensures u.package.Some? ==> |r| == |u.package.value| + 1 + |u.mainTypeName|
    ensures u.package.Some? ==> r[..|u.package.value|] == u.package.value && r[|u.package.value|] == '.'
    ensures r[|r| - |u.mainTypeName|..] == u.mainTypeName
  {
    match u.package
    case None => u.mainTypeName
    case Some(p) => p + "." + u.mainTypeName
  }

  /** `String.replace(char, char)`: every occurrence of `a` becomes `b`. */
  function Replace(s: string, a: char, b: char): (r: string)
    ensures |r| == |s|
    ensures forall i :: 0 <= i < |s| ==> r[i] == (if s[i] == a then b else s[i])
  {
    if |s| == 0 then "" else [if s[0] == a then b else s[0]] + Replace(s[1..], a, b)
  }

  /** `getSourceFileName`: the qualified name with each `.` turned into the path
      separator, followed by `.java`. The separator is a parameter. */
  function SourceFileName(u: UnitNames, separator: char): (r: string)
    ensures var q := QualifiedMainTypeName(u);
      && |r| == |q| + |JavaSuffix|
      && r[|q|..] == JavaSuffix
      && forall i :: 0 <= i < |q| ==> r[i] == (if q[i] == '.' then separator else q[i])
  {
    Replace(QualifiedMainTypeName(u), '.', separator) + JavaSuffix
  }

  /** The index of the last `.` in `s`. */
  function LastDot(s: string): (r: Option<nat>)
    ensures r.None? <==> '.' !in s
    ensures r.Some? ==> r.value < |s| && s[r.value] == '.'
    ensures r.Some? ==> forall j :: r.value < j < |s| ==> s[j] != '.'
  {
    if |s| == 0 then None
    else if s[|s| - 1] == '.' then Some(|s| - 1)
    else
      var r := LastDot(s[..|s| - 1]);
      assert s == s[..|s| - 1] + [s[|s| - 1]];
      r
  }

  /** The part of `s` after its last `.`, all of `s` when it has none. */
  function LastSegment(s: string): string {
    match LastDot(s)
    case None => s
    case Some(i) => s[i + 1..]
  }

  /** The part of `s` before its last `.`, `None` when it has none. */
  function Qualifier(s: string): Option<string> {
    match LastDot(s)
    case None => None
    case Some(i) => Some(s[..i])
  }

  /** A main type name without dots can be read back from the qualified name,
      and so can the package. */
  lemma QualifiedNameSplits(u: UnitNames)
    requires '.' !in u.mainTypeName
    ensures LastSegment(QualifiedMainTypeName(u)) == u.mainTypeName
    ensures Qualifier(QualifiedMainTypeName(u)) == u.package
  {
    var q := QualifiedMainTypeName(u);
    var m := u.mainTypeName;
    match u.package
    case None =>
    case Some(p) =>
      assert q[|p|] == '.';
      assert LastDot(q).value == |p|;
  }

  /** With a separator the qualified name does not use, the qualified name can be
      recovered from the file name. */
  lemma {:induction false} SourceFileNameRoundTrip(u: UnitNames, separator: char)
    requires separator !in QualifiedMainTypeName(u)
    ensures var f := SourceFileName(u, separator);
      |f| >= |JavaSuffix| && Replace(f[..|f| - |JavaSuffix|], separator, '.') == QualifiedMainTypeName(u)
  {
    var q := QualifiedMainTypeName(u);
    var f := SourceFileName(u, separator);
    var back := Replace(f[..|f| - |JavaSuffix|], separator, '.');
    forall i | 0 <= i < |q|
      ensures back[i] == q[i]
    {
      assert q[i] != separator;
    }
  }
}
