// CoreCLR security levels (security-core-clr.c / security-core-clr.h).
//
// Code is Transparent, SafeCritical or Critical.  The levels are compared as
// integers in the order Transparent = 0 < SafeCritical = 1 < Critical = 2.
// Classes, methods and images are modelled as values: an attribute set per
// class and per method, the enclosing class (nested_in), the parent class,
// and whether an image is platform code.  Reflection stack walks and the
// runtime's accessibility test are parameters of the decisions that use them.

module CoreClrSecurity {

  datatype Level = Transparent | SafeCritical | Critical

  /** The integer value of a level in the runtime's enumeration. */
  function Rank(l: Level): nat
  {
    match l
    case Transparent => 0
    case SafeCritical => 1
    case Critical => 2
  }

  datatype Option<T> = None | Some(value: T)

  /** An assembly image: its file name, the cached platform-code flag and its
      assembly's base directory (which may be absent). */
  datatype Image = Image(name: string, platformCode: bool, basedir: Option<string>)

  /** The two CoreCLR custom attributes that may decorate a class or method. */
  datatype Attrs = Attrs(safeCritical: bool, critical: bool)

  datatype Class = Class(
    name: string,
    nameSpace: string,
    image: Image,
    cinfo: Option<Attrs>,
    nestedIn: Option<Class>,
    parent: Option<Class>)

  datatype Method = Method(name: string, klass: Class, cinfo: Option<Attrs>)

  datatype Field = Field(name: string, parent: Class)

  /** Every image takes part in the CoreCLR rules in this runtime. */
  predicate EnabledForImage(image: Image)
  {
    true
  }

  predicate IsPlatformImage(image: Image)
  {
    image.platformCode
  }

  // ---------------------------------------------------------------------
  // Tables of what a derived type and an override may be, as documented
  // next to the checks.

  /** Levels a class may have when its base class has level `base`. */
  function AllowedDerived(base: Level): set<Level>
  {
    match base
    case Transparent => {Transparent, SafeCritical, Critical}
    case SafeCritical => {SafeCritical, Critical}
    case Critical => {Critical}
  }

  /** Levels an override may have when the overridden method has level `base`. */
  function AllowedOverride(base: Level): set<Level>
  {
    match base
    case Transparent => {Transparent, SafeCritical}
    case SafeCritical => {Transparent, SafeCritical}
    case Critical => {Critical}
  }

  // ---------------------------------------------------------------------
  // Level resolution.

  /** The level stated by a set of attributes; Critical wins over SafeCritical,
      and no attribute (or no attribute information) means Transparent. */
  function LevelFromCinfo(cinfo: Option<Attrs>): (l: Level)
    ensures l == Critical <==> cinfo.Some? && cinfo.value.critical
    ensures l == SafeCritical <==> cinfo.Some? && cinfo.value.safeCritical && !cinfo.value.critical
    ensures l == Transparent <==> cinfo.None? || (!cinfo.value.safeCritical && !cinfo.value.critical)
  {
    var level := Transparent;
    var level := if cinfo.Some? && cinfo.value.safeCritical then SafeCritical else level;
    var level := if cinfo.Some? && cinfo.value.critical then Critical else level;
    level
  }

  /** The chain of a class and its enclosing classes, innermost first. */
  function EnclosingChain(c: Class): (chain: seq<Class>)
    ensures |chain| >= 1 && chain[0] == c
    decreases c
  {
    match c.nestedIn
    case None => [c]
    case Some(outer) => [c] + EnclosingChain(outer)
  }

  /** The level of a class from its own attributes, falling back on the
      enclosing class while the level found so far is Transparent. */
  function ClassLevelNoPlatformCheck(c: Class): (l: Level)
    ensures l != Transparent ==> exists i :: 0 <= i < |EnclosingChain(c)| && LevelFromCinfo(EnclosingChain(c)[i].cinfo) == l
    decreases c
  {
    if !EnabledForImage(c.image) then SafeCritical
    else
      var level := LevelFromCinfo(c.cinfo);
      if level == Transparent && c.nestedIn.Some? then
        var outer := ClassLevelNoPlatformCheck(c.nestedIn.value);
        assert forall i :: 0 <= i < |EnclosingChain(c.nestedIn.value)| ==>
          EnclosingChain(c.nestedIn.value)[i] == EnclosingChain(c)[i + 1];
        outer
      else level
  }

  /** The resolved class level is Transparent exactly when no class in the
      enclosing chain carries a non-Transparent attribute. */
  lemma {:induction false} ClassLevelTransparent(c: Class)
    ensures ClassLevelNoPlatformCheck(c) == Transparent <==>
      forall i :: 0 <= i < |EnclosingChain(c)| ==> LevelFromCinfo(EnclosingChain(c)[i].cinfo) == Transparent
    decreases c
  {
    var chain := EnclosingChain(c);
    if LevelFromCinfo(c.cinfo) == Transparent && c.nestedIn.Some? {
      var outer := c.nestedIn.value;
      ClassLevelTransparent(outer);
      assert ClassLevelNoPlatformCheck(outer) == Transparent <==>
        forall i :: 0 <= i < |EnclosingChain(outer)| ==> LevelFromCinfo(EnclosingChain(outer)[i].cinfo) == Transparent;
      var rest := EnclosingChain(outer);
      assert chain == [c] + rest;
      assert ClassLevelNoPlatformCheck(c) == ClassLevelNoPlatformCheck(outer);
      if ClassLevelNoPlatformCheck(outer) == Transparent {
        forall i | 0 <= i < |chain|
          ensures LevelFromCinfo(chain[i].cinfo) == Transparent
        {
          if i > 0 {
            assert chain[i] == rest[i - 1] && LevelFromCinfo(rest[i - 1].cinfo) == Transparent;
          }
        }
      } else {
        var k :| 0 <= k < |rest| && LevelFromCinfo(rest[k].cinfo) != Transparent;
        assert chain[k + 1] == rest[k];
      }
    } else if c.nestedIn.None? {
      assert chain == [c];
    } else {
      assert ClassLevelNoPlatformCheck(c) == LevelFromCinfo(c.cinfo) != Transparent;
      assert LevelFromCinfo(EnclosingChain(c)[0].cinfo) != Transparent;
    }
  }

  /** The resolved class level, when not Transparent, is the level of the
      innermost class in the enclosing chain that carries a non-Transparent
      attribute. */
  lemma {:induction false} ClassLevelIsFirstDecorated(c: Class)
    ensures ClassLevelNoPlatformCheck(c) != Transparent ==>
      exists i :: 0 <= i < |EnclosingChain(c)| &&
        LevelFromCinfo(EnclosingChain(c)[i].cinfo) == ClassLevelNoPlatformCheck(c) &&
        forall j :: 0 <= j < i ==> LevelFromCinfo(EnclosingChain(c)[j].cinfo) == Transparent
    decreases c
  {
    var chain := EnclosingChain(c);
    if LevelFromCinfo(c.cinfo) != Transparent {
      assert LevelFromCinfo(chain[0].cinfo) == ClassLevelNoPlatformCheck(c);
    } else if c.nestedIn.Some? && ClassLevelNoPlatformCheck(c) != Transparent {
      var outer := c.nestedIn.value;
      ClassLevelIsFirstDecorated(outer);
      var rest := EnclosingChain(outer);
      assert chain == [c] + rest;
      assert ClassLevelNoPlatformCheck(c) == ClassLevelNoPlatformCheck(outer);
      var i :| 0 <= i < |rest| &&
        LevelFromCinfo(rest[i].cinfo) == ClassLevelNoPlatformCheck(outer) &&
        forall j :: 0 <= j < i ==> LevelFromCinfo(rest[j].cinfo) == Transparent;
      assert chain[i + 1] == rest[i];
      forall j | 0 <= j < i + 1
        ensures LevelFromCinfo(chain[j].cinfo) == Transparent
      {
        if j > 0 {
          assert chain[j] == rest[j - 1];
        }
      }
    }
  }

  /** The level of a class: non-platform code is always Transparent unless the
      runtime runs in CoreCLR test mode. */
  function ClassLevel(c: Class, testMode: bool): (l: Level)
    ensures !testMode && !IsPlatformImage(c.image) ==> l == Transparent
    ensures testMode || IsPlatformImage(c.image) ==> l == ClassLevelNoPlatformCheck(c)
  {
    if !testMode && !IsPlatformImage(c.image) then Transparent
    else ClassLevelNoPlatformCheck(c)
  }

  /** A Transparent nested class of platform code takes the level of its
      enclosing class. */
  lemma NestedTransparentInheritsEnclosing(c: Class, testMode: bool)
    requires c.nestedIn.Some? && LevelFromCinfo(c.cinfo) == Transparent
    requires testMode || IsPlatformImage(c.image)
    ensures ClassLevel(c, testMode) == ClassLevelNoPlatformCheck(c.nestedIn.value)
  {
  }

  /** The level of a method; an absent method (no caller found by the stack
      walk) has no privilege. */
  function MethodLevel(m: Option<Method>, withClassLevel: bool, testMode: bool): (l: Level)
    ensures m.None? ==> l == Transparent
    ensures m.Some? && !testMode && !IsPlatformImage(m.value.klass.image) ==> l == Transparent
    ensures m.Some? && !withClassLevel && (testMode || IsPlatformImage(m.value.klass.image)) ==>
      l == LevelFromCinfo(m.value.cinfo)
  {
    if m.None? then Transparent
    else if !testMode && !IsPlatformImage(m.value.klass.image) then Transparent
    else if !EnabledForImage(m.value.klass.image) then SafeCritical
    else
      var level := LevelFromCinfo(m.value.cinfo);
      if withClassLevel && level == Transparent then ClassLevel(m.value.klass, testMode)
      else level
  }

  /** Taking the class level into account never lowers a method's level, and
      a Transparent method inherits its class's level. */
  lemma MethodLevelWithClass(m: Method, testMode: bool)
    ensures Rank(MethodLevel(Some(m), true, testMode)) >= Rank(MethodLevel(Some(m), false, testMode))
    ensures MethodLevel(Some(m), false, testMode) == Transparent ==>
      MethodLevel(Some(m), true, testMode) == ClassLevel(m.klass, testMode)
  {
  }

  // ---------------------------------------------------------------------
  // Inheritance and override rules.

  /** Type-load check of a class against its parent: true when the class is
      accepted (the runtime marks the class as failed otherwise). */
  function CheckInheritance(c: Class, testMode: bool): (ok: bool)
    ensures c.parent.None? ==> ok
    ensures c.parent.Some? ==>
      (ok <==> ClassLevel(c, testMode) in AllowedDerived(ClassLevel(c.parent.value, testMode)))
  {
    match c.parent
    case None => true
    case Some(p) => !(Rank(ClassLevel(c, testMode)) < Rank(ClassLevel(p, testMode)))
  }

  /** The inheritance check fails exactly when the derived class sits lower in
      the lattice than its parent. */
  lemma InheritanceFailsIffLower(c: Class, p: Class, testMode: bool)
    requires c.parent == Some(p)
    ensures !CheckInheritance(c, testMode) <==> Rank(ClassLevel(c, testMode)) < Rank(ClassLevel(p, testMode))
  {
  }

  /** Override check: true when `override` may legally override `base`. */
  function CheckOverride(override: Method, base: Method, testMode: bool): (ok: bool)
    ensures ok <==> MethodLevel(Some(override), false, testMode) in AllowedOverride(MethodLevel(Some(base), false, testMode))
  {
    var baseLevel := MethodLevel(Some(base), false, testMode);
    var overrideLevel := MethodLevel(Some(override), false, testMode);
    if baseLevel == Critical then overrideLevel == Critical
    else overrideLevel != Critical
  }

  /** An override is rejected exactly when one, and only one, of the two
      methods is Critical. */
  lemma OverrideFailsIffExactlyOneCritical(override: Method, base: Method, testMode: bool)
    ensures !CheckOverride(override, base, testMode) <==>
      ((MethodLevel(Some(base), false, testMode) == Critical) != (MethodLevel(Some(override), false, testMode) == Critical))
  {
  }

  // ---------------------------------------------------------------------
  // Internals access.

  /** Whether [InternalsVisibleTo] may take effect from `accessing` into
      `accessed`. */
  function CanAccessInternals(accessing: Image, accessed: Image): (r: bool)
    ensures !IsPlatformImage(accessed) ==> r
    ensures IsPlatformImage(accessing) ==> r
    ensures IsPlatformImage(accessed) && !IsPlatformImage(accessing) ==>
      (r <==> accessed.basedir.Some? && accessing.basedir.Some? && accessed.basedir.value == accessing.basedir.value)
  {
    if !IsPlatformImage(accessed) then true
    else if IsPlatformImage(accessing) then true
    else if accessed.basedir.None? || accessing.basedir.None? then false
    else accessed.basedir.value == accessing.basedir.value
  }

  /** Transparent code can reach platform internals only from the same
      directory; and every image can access its own internals when its
      assembly has a base directory or is platform code. */
  lemma InternalsAccessOfPlatformNeedsSameDir(accessing: Image, accessed: Image)
    requires IsPlatformImage(accessed) && CanAccessInternals(accessing, accessed)
    ensures IsPlatformImage(accessing) || (accessing.basedir.Some? && accessing.basedir == accessed.basedir)
  {
  }

  // ---------------------------------------------------------------------
  // Reflection and delegate checks.

  /** Outcome of a reflection or delegate-creation check. */
  datatype Verdict = Allowed | Refused | ArgumentException | MethodAccessException | FieldAccessException

  /** The caller can access the target only if a caller was found and the
      runtime's visibility test (a parameter here) accepts it. */
  predicate CheckAccess(caller: Option<Method>, visible: bool)
  {
    caller.Some? && visible
  }

  /** Delegates that corlib creates on its own reflection adapter frames are
      not checked. */
  predicate CanAvoidCorlibReflectionDelegateOptimization(m: Method)
  {
    IsPlatformImage(m.klass.image) &&
    m.klass.nameSpace == "System.Reflection" &&
    ((m.klass.name == "MonoProperty" && (m.name == "GetterAdapterFrame" || m.name == "StaticGetterAdapterFrame")) ||
     (m.klass.name == "EventInfo" && (m.name == "AddEventFrame" || m.name == "StaticAddEventAdapterFrame")))
  }

  /** Whether a delegate may be bound to `m`.  `caller` is the first frame
      outside reflection found by the stack walk and `visible` the runtime's
      accessibility answer for that caller and `m`. */
  function EnsureDelegateCreation(m: Method, throwOnBindFailure: bool, caller: Option<Method>, visible: bool, testMode: bool): (v: Verdict)
    ensures v in {Allowed, Refused, ArgumentException, MethodAccessException}
    ensures v == Refused <==>
      !CanAvoidCorlibReflectionDelegateOptimization(m) && !throwOnBindFailure &&
      MethodLevel(caller, true, testMode) == Transparent && MethodLevel(Some(m), true, testMode) == Critical
    ensures v == ArgumentException <==>
      !CanAvoidCorlibReflectionDelegateOptimization(m) && throwOnBindFailure &&
      MethodLevel(caller, true, testMode) == Transparent && MethodLevel(Some(m), true, testMode) == Critical
    ensures v == MethodAccessException <==>
      !CanAvoidCorlibReflectionDelegateOptimization(m) &&
      MethodLevel(caller, true, testMode) == Transparent && MethodLevel(Some(m), true, testMode) != Critical &&
      IsPlatformImage(m.klass.image) && !CheckAccess(caller, visible)
    ensures MethodLevel(caller, true, testMode) != Transparent ==> v == Allowed
    ensures !IsPlatformImage(m.klass.image) && !testMode ==> v == Allowed
  {
    if CanAvoidCorlibReflectionDelegateOptimization(m) then Allowed
    else if caller.Some? && !EnabledForImage(caller.value.klass.image) then Allowed
    else if MethodLevel(caller, true, testMode) != Transparent then Allowed
    else if MethodLevel(Some(m), true, testMode) == Critical then
      if !throwOnBindFailure then Refused else ArgumentException
    else if !IsPlatformImage(m.klass.image) then Allowed
    else if !CheckAccess(caller, visible) then MethodAccessException
    else Allowed
  }

  /** Reflection access to a method from the first non-reflection caller. */
  function EnsureReflectionAccessMethod(m: Method, caller: Option<Method>, visible: bool, testMode: bool): (v: Verdict)
    ensures v in {Allowed, MethodAccessException}
    ensures MethodLevel(caller, true, testMode) != Transparent ==> v == Allowed
    ensures !IsPlatformImage(m.klass.image) ==> v == Allowed
    ensures MethodLevel(caller, true, testMode) == Transparent && IsPlatformImage(m.klass.image) ==>
      (v == Allowed <==> MethodLevel(Some(m), true, testMode) != Critical && CheckAccess(caller, visible))
  {
    if MethodLevel(caller, true, testMode) != Transparent then Allowed
    else if !IsPlatformImage(m.klass.image) then Allowed
    else if MethodLevel(Some(m), true, testMode) == Critical then MethodAccessException
    else if !CheckAccess(caller, visible) then MethodAccessException
    else Allowed
  }

  /** Reflection access to a field from the first non-reflection caller. */
  function EnsureReflectionAccessField(f: Field, caller: Option<Method>, visible: bool, testMode: bool): (v: Verdict)
    ensures v in {Allowed, FieldAccessException}
    ensures MethodLevel(caller, true, testMode) != Transparent ==> v == Allowed
    ensures !IsPlatformImage(f.parent.image) ==> v == Allowed
    ensures MethodLevel(caller, true, testMode) == Transparent && IsPlatformImage(f.parent.image) ==>
      (v == Allowed <==> ClassLevel(f.parent, testMode) != Critical && CheckAccess(caller, visible))
  {
    if MethodLevel(caller, true, testMode) != Transparent then Allowed
    else if !IsPlatformImage(f.parent.image) then Allowed
    else if ClassLevel(f.parent, testMode) == Critical then FieldAccessException
    else if !CheckAccess(caller, visible) then FieldAccessException
    else Allowed
  }

  /** A missing caller is treated as Transparent without access rights, so it
      can never reach a platform method that the checks protect. */
  lemma NoCallerCannotReachPlatformMethod(m: Method, visible: bool, testMode: bool)
    requires IsPlatformImage(m.klass.image)
    ensures EnsureReflectionAccessMethod(m, None, visible, testMode) == MethodAccessException
  {
  }

  // ---------------------------------------------------------------------
  // Default platform-code test.

  const CorlibFileName: string := "mscorlib.dll"

  /** The default platform check: the loaded corlib's own image when corlib is
      loaded, otherwise any image whose name ends in "mscorlib.dll". */
  function DefaultPlatformCheck(corlibName: Option<string>, imageName: string): (r: bool)
    ensures corlibName.Some? ==> (r <==> imageName == corlibName.value)
    ensures corlibName.None? && r ==> |imageName| >= |CorlibFileName|
  {
    match corlibName
    case Some(n) => n == imageName
    case None =>
      var ilen := |imageName|;
      var clen := |CorlibFileName|;
      ilen >= clen && imageName[ilen - clen..] == CorlibFileName
  }

  /** Before corlib is loaded the default check accepts exactly the names that
      have "mscorlib.dll" as a suffix. */
  lemma DefaultPlatformCheckIsSuffixTest(imageName: string)
    ensures DefaultPlatformCheck(None, imageName) <==> exists prefix :: prefix + CorlibFileName == imageName
  {
    if DefaultPlatformCheck(None, imageName) {
      var prefix := imageName[..|imageName| - |CorlibFileName|];
      assert prefix + CorlibFileName == imageName;
    }
    if exists prefix :: prefix + CorlibFileName == imageName {
      var prefix :| prefix + CorlibFileName == imageName;
      assert imageName[|prefix|..] == CorlibFileName;
    }
  }
}
