/**
  `BuildFileProjectSpec`: selects the project whose build file is a given file.
  Files are their path strings; `File.equals` is string equality of paths.
 */
module BuildFileSpec {
  import opened Wrappers

  /** A spec holds a possibly-null build file. */
  datatype Spec = Spec(buildFile: Option<string>)

  /** The part of a project identifier the spec reads. */
  datatype ProjectIdentifier = ProjectIdentifier(buildFile: Option<string>)

  /** An argument of `equals`: null, another spec, or an object of another class. */
  datatype Object = NullObject | SpecObject(spec: Spec) | OtherObject(id: int)

  /** `String.valueOf` of a file: its path, or "null". */
  function FileText(file: Option<string>): string {
    if file.Some? then file.value else "null"
  }

  /** `getDescription`. */
  function Description(s: Spec): (d: string)
    ensures |d| >= 18 && d[..17] == "with build file '" && d[|d| - 1] == '\''
    ensures d[17..|d| - 1] == FileText(s.buildFile)
  {
    "with build file '" + FileText(s.buildFile) + "'"
  }

  /** `isSatisfiedBy`: the element's build file equals the spec's. A null spec
      file makes the call throw. */
  function IsSatisfiedBy(s: Spec, element: ProjectIdentifier): (r: Result<bool>)
    ensures r.Thrown? <==> s.buildFile == None
    ensures r.Ok? ==> (r.value <==> element.buildFile == s.buildFile)
    ensures s.buildFile.Some? && element.buildFile == None ==> r == Ok(false)
  {
    if s.buildFile.None? then Thrown(NullPointerException)
    else Ok(element.buildFile == s.buildFile)
  }

  /** `equals` by reflection: same class and equal build-file fields. */
  function Equals(s: Spec, obj: Object): (b: bool)
    ensures b <==> obj == SpecObject(s)
  {
    obj.SpecObject? && obj.spec.buildFile == s.buildFile
  }

  /** Java's `String.hashCode` on 32 bits, one step per character; for characters
      of the Basic Multilingual Plane a character is one UTF-16 code unit. */
  function StringHash(p: string): bv32
    decreases |p|
  {
    if |p| == 0 then 0
    else StringHash(p[..|p| - 1]) * 31 + ((p[|p| - 1] as int) % 0x1_0000_0000) as bv32
  }

  /** `hashCode` by reflection: 17 * 37 plus the field's hash, 0 for null; a
      file hashes as its path's hash XOR 1234321 (the Unix file system). */
  function HashCode(s: Spec): (h: bv32)
    ensures s.buildFile == None ==> h == 629
    ensures h == 629 <==> s.buildFile == None || StringHash(s.buildFile.value) == 1234321
  {
    var field: bv32 := if s.buildFile.Some? then StringHash(s.buildFile.value) ^ 1234321 else 0;
    (17 * 37) as bv32 + field
  }

  /** Equality is reflexive and symmetric, and never holds for null or other classes. */
  lemma EqualsIsEquivalence(s: Spec, t: Spec, obj: Object)
    ensures Equals(s, SpecObject(s))
    ensures Equals(s, SpecObject(t)) <==> Equals(t, SpecObject(s))
    ensures Equals(s, SpecObject(t)) <==> s.buildFile == t.buildFile
    ensures !Equals(s, NullObject)
    ensures obj.OtherObject? ==> !Equals(s, obj)
  {
  }

  /** Equal specs have equal hash codes. */
  lemma HashConsistentWithEquals(s: Spec, t: Spec)
    requires Equals(s, SpecObject(t))
    ensures HashCode(s) == HashCode(t)
  {
  }

  /** Two specs with the same build file select exactly the same projects. */
  lemma EqualSpecsSelectAlike(s: Spec, t: Spec, element: ProjectIdentifier)
    requires Equals(s, SpecObject(t))
    ensures IsSatisfiedBy(s, element) == IsSatisfiedBy(t, element)
  {
  }

  /** A spec is satisfied exactly by the projects whose identifier carries its file. */
  lemma SatisfiedIffSameFile(path: string, element: ProjectIdentifier)
    ensures IsSatisfiedBy(Spec(Some(path)), element) == Ok(element.buildFile == Some(path))
  {
  }
}
