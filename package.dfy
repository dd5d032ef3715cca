/**
 * The package container of the compiler's model. A package has a dotted
 * name (a list of segments), the module it belongs to and a list of member
 * structures. It is the root of the scope chain: it has no container.
 */
module CompilerModel {
  import DottedNames

  /** A field of reference type that may still be unset (Java's null). */
  datatype Option<T> = None | Some(value: T)

  /** The module a package belongs to; its contents are not part of this model. */
  class Module { }

  /** A member of a package; its contents are not part of this model. */
  class Structure { }

  /** The character written between name segments. */
  const Separator: char := '.'

  class Package {
    /** The name segments; None until a name is set. */
    var name: Option<seq<string>>
    /** The owning module (the Java field `module`; `module` is a keyword in Dafny). */
    var pkgModule: Module?
    /** The member structures, in insertion order. */
    var members: seq<Structure>

    /** A new package: no name, no module and an empty member list. */
    constructor ()
      ensures name == None && pkgModule == null && members == []
    {
      name := None;
      pkgModule := null;
      members := [];
    }

    function GetModule(): (m: Module?)
      reads this
    {
      pkgModule
    }

    /** Sets the module; the name and the members are left as they were. */
    method SetModule(m: Module?)
      modifies this
      ensures GetModule() == m
      ensures name == old(name) && members == old(members)
    {
      pkgModule := m;
    }

    function GetName(): (n: Option<seq<string>>)
      reads this
    {
      name
    }

    /** Sets the name; the module and the members are left as they were. */
    method SetName(n: Option<seq<string>>)
      modifies this
      ensures GetName() == n
      ensures pkgModule == old(pkgModule) && members == old(members)
    {
      name := n;
    }

    function GetMembers(): (ms: seq<Structure>)
      reads this
    {
      members
    }

    /** A package is a root scope: whatever its state, it has no container. */
    function GetContainer(): (c: object?)
      ensures c == null
    {
      null
    }

    /** The name segments joined with '.', built one segment at a time.
        The name must have been set. */
    method GetNameAsString() returns (s: string)
      requires name.Some?
      ensures s == DottedNames.Join(name.value, Separator)
      ensures |name.value| == 0 ==> s == ""
      ensures |name.value| == 1 ==> s == name.value[0]
      ensures |s| == DottedNames.TotalLength(name.value) + (if |name.value| == 0 then 0 else |name.value| - 1)
      ensures DottedNames.WellFormed(name.value, Separator) ==> DottedNames.Split(s, Separator) == name.value
    {
      var segs := name.value;
      var sb := "";
      for i := 0 to |segs|
        invariant sb == DottedNames.Join(segs[..i], Separator) + (if 0 < i < |segs| then [Separator] else [])
      {
        if i > 0 {
          assert segs[..i + 1] == segs[..i] + [segs[i]];
          DottedNames.JoinSnoc(segs[..i], segs[i], Separator);
        } else {
          assert segs[..1] == [segs[0]];
        }
        sb := sb + segs[i];
        if i < |segs| - 1 {
          sb := sb + [Separator];
        }
      }
      assert segs[..|segs|] == segs;
      s := sb;
      if DottedNames.WellFormed(segs, Separator) {
        DottedNames.SplitJoin(segs, Separator);
      }
    }

    /** "Package[" followed by the dotted name and "]". The name must have been set. */
    method ToString() returns (s: string)
      requires name.Some?
      ensures s == "Package[" + DottedNames.Join(name.value, Separator) + "]"
      ensures DottedNames.WellFormed(name.value, Separator) ==>
                DottedNames.Split(s[|"Package["|..|s| - 1], Separator) == name.value
    {
      var n := GetNameAsString();
      s := "Package[" + n + "]";
      assert s[|"Package["|..|s| - 1] == n;
    }
  }

  /** The worked example of a three-segment package name. */
  lemma QualifiedNameExample()
    ensures DottedNames.Join(["a", "b", "c"], Separator) == "a.b.c"
    ensures DottedNames.Split("a.b.c", Separator) == ["a", "b", "c"]
  {
    DottedNames.SplitJoin(["a", "b", "c"], Separator);
  }

  /** A client: a new package, once named, prints its dotted name, and setting
      its module leaves the name and the empty member list alone. */
  method NamePackage(m: Module) returns (p: Package, s: string)
    ensures fresh(p)
    ensures p.GetName() == Some(["a", "b", "c"]) && p.GetModule() == m && p.GetMembers() == []
    ensures s == "a.b.c"
  {
    p := new Package();
    p.SetName(Some(["a", "b", "c"]));
    p.SetModule(m);
    s := p.GetNameAsString();
    QualifiedNameExample();
  }
}
