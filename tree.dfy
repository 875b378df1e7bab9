/**
 * The in-memory UCI configuration tree of types.go: a Config holds an
 * ordered list of Sections, and each Section an ordered list of Options.
 * Options are values; Sections and Configs are objects whose lists the
 * methods below change in place.
 */
module Tree {
  import opened Wrappers
  import opened Selectors

  // ---------------------------------------------------------------------
  // Options
  // ---------------------------------------------------------------------

  /** The two kinds of option: a single value ("option") or a list ("list"). */
  datatype OptionType = TypeOption | TypeList

  /** An option: a key with one or more values. */
  datatype Option = Option(name: string, values: seq<string>, typ: OptionType)
  {
    /** SetValues: the values are replaced by vs. */
    function SetValues(vs: seq<string>): (o: Option)
      ensures o.name == name && o.typ == typ && o.values == vs
    {
      this.(values := vs)
    }

    /** AddValue: v is appended to the values. */
    function AddValue(v: string): (o: Option)
      ensures o.name == name && o.typ == typ && o.values == values + [v]
    {
      this.(values := values + [v])
    }

    /**
     * MergeValues: appends, in order, every incoming value that was not
     * among the values before the call. The set of values already seen is
     * built once, so a value repeated inside vs is appended every time.
     */
    method MergeValues(vs: seq<string>) returns (o: Option)
      ensures o == this.(values := values + Unseen(values, vs))
    {
      var have: set<string> := {};
      for i := 0 to |values|
        invariant have == set j | 0 <= j < i :: values[j]
      {
        have := have + {values[i]};
      }
      o := this;
      for i := 0 to |vs|
        invariant o == this.(values := values + Unseen(values, vs[..i]))
      {
        assert vs[..i + 1][..i] == vs[..i];
        if vs[i] !in have {
          o := o.AddValue(vs[i]);
        }
      }
      assert vs[..|vs|] == vs;
    }
  }

  /** The values of vs, in order and with repetitions, that do not occur in seen. */
  function Unseen(seen: seq<string>, vs: seq<string>): (r: seq<string>)
    ensures forall v :: v in r <==> v in vs && v !in seen
    ensures |r| <= |vs|
  {
    if vs == [] then []
    else Unseen(seen, vs[..|vs| - 1]) + (if vs[|vs| - 1] in seen then [] else [vs[|vs| - 1]])
  }

  /** Values that are all already present are not appended again. */
  lemma {:induction false} UnseenOfPresent(seen: seq<string>, vs: seq<string>)
    requires forall v :: v in vs ==> v in seen
    ensures Unseen(seen, vs) == []
  {
    if vs != [] {
      assert vs[|vs| - 1] in vs;
      forall v | v in vs[..|vs| - 1]
        ensures v in seen
      {
        assert v in vs;
      }
      UnseenOfPresent(seen, vs[..|vs| - 1]);
    }
  }

  /** When no incoming value was seen before, all of them are kept, in order and with repetitions. */
  lemma {:induction false} UnseenOfFresh(seen: seq<string>, vs: seq<string>)
    requires forall v :: v in vs ==> v !in seen
    ensures Unseen(seen, vs) == vs
  {
    if vs != [] {
      assert vs[|vs| - 1] in vs;
      forall v | v in vs[..|vs| - 1]
        ensures v !in seen
      {
        assert v in vs;
      }
      UnseenOfFresh(seen, vs[..|vs| - 1]);
      assert vs[..|vs| - 1] + [vs[|vs| - 1]] == vs;
    }
  }

  /** Merging the same values a second time changes nothing. */
  lemma MergeValuesIdempotent(values: seq<string>, vs: seq<string>)
    ensures var once := values + Unseen(values, vs);
      once + Unseen(once, vs) == once
  {
    var once := values + Unseen(values, vs);
    forall v | v in vs
      ensures v in once
    {
      if v !in values {
        assert v in Unseen(values, vs);
      }
    }
    UnseenOfPresent(once, vs);
  }

  /** Merging never drops or reorders old values, and afterwards every incoming value is present. */
  lemma MergeValuesKeepsAndCovers(values: seq<string>, vs: seq<string>)
    ensures var merged := values + Unseen(values, vs);
      merged[..|values|] == values &&
      (forall v :: v in vs ==> v in merged) &&
      (forall v :: v in merged ==> v in values || v in vs)
  {
    var merged := values + Unseen(values, vs);
    assert merged[..|values|] == values;
    forall v | v in vs
      ensures v in merged
    {
      if v !in values {
        assert v in Unseen(values, vs);
      }
    }
  }

  /** A value repeated in the incoming list is appended twice ("a" merged with "b", "b"). */
  lemma MergeValuesKeepsIncomingRepeats()
    ensures ["a"] + Unseen(["a"], ["b", "b"]) == ["a", "b", "b"]
  {
    UnseenOfFresh(["a"], ["b", "b"]);
  }

  // ---------------------------------------------------------------------
  // Sections
  // ---------------------------------------------------------------------

  /** The result of an option lookup: the option found, or none. */
  datatype Lookup<T> = Absent | Present(value: T)

  /** The index of the first element of xs whose key is key, or |xs| when there is none. */
  function FirstKeyed<T>(xs: seq<T>, keyOf: T -> string, key: string): (k: nat)
    ensures k <= |xs|
    ensures k < |xs| ==> keyOf(xs[k]) == key
    ensures forall j :: 0 <= j < k ==> keyOf(xs[j]) != key
  {
    if xs == [] then 0
    else if keyOf(xs[0]) == key then 0
    else 1 + FirstKeyed(xs[1..], keyOf, key)
  }

  /** The index of the first option called name, or |opts| when there is none. */
  function FirstNamed(opts: seq<Option>, name: string): (k: nat)
    ensures k <= |opts|
    ensures k < |opts| ==> opts[k].name == name
    ensures forall j :: 0 <= j < k ==> opts[j].name != name
  {
    FirstKeyed(opts, (o: Option) => o.name, name)
  }

  /** The options after Section.Merge(o): merged into the first option of that name, or appended. */
  function MergeOption(opts: seq<Option>, o: Option): seq<Option> {
    var k := FirstNamed(opts, o.name);
    if k < |opts| then
      opts[k := opts[k].(values := opts[k].values + Unseen(opts[k].values, o.values))]
    else
      opts + [o]
  }

  /** The options after merging every option of incoming, first to last. */
  function MergeAll(opts: seq<Option>, incoming: seq<Option>): seq<Option> {
    if incoming == [] then opts
    else MergeOption(MergeAll(opts, incoming[..|incoming| - 1]), incoming[|incoming| - 1])
  }

  /** No two options share a name. */
  predicate UniqueNames(opts: seq<Option>) {
    forall i, j :: 0 <= i < j < |opts| ==> opts[i].name != opts[j].name
  }

  /** opts' extends opts: the old options keep their place, name, type and old values, and new ones only follow them. */
  predicate Extends(opts: seq<Option>, opts': seq<Option>) {
    |opts| <= |opts'| &&
    forall i :: 0 <= i < |opts| ==>
      opts'[i].name == opts[i].name && opts'[i].typ == opts[i].typ &&
      |opts[i].values| <= |opts'[i].values| && opts'[i].values[..|opts[i].values|] == opts[i].values
  }

  /** Some option of opts is called name and holds every value of vs. */
  predicate Holds(opts: seq<Option>, name: string, vs: seq<string>) {
    exists k :: 0 <= k < |opts| && opts[k].name == name && forall v :: v in vs ==> v in opts[k].values
  }

  /**
   * Section.Merge is append-only: the old options are extended in place,
   * the list grows by one exactly when no option had o's name, the merged
   * option keeps its type, every value of o ends up under o's name, and
   * unique names stay unique.
   */
  lemma MergeOptionProperties(opts: seq<Option>, o: Option)
    ensures var r := MergeOption(opts, o);
      Extends(opts, r) &&
      |r| == (if exists j :: 0 <= j < |opts| && opts[j].name == o.name then |opts| else |opts| + 1) &&
      (|r| > |opts| ==> r[|opts|] == o) &&
      Holds(r, o.name, o.values) &&
      (UniqueNames(opts) ==> UniqueNames(r))
  {
    var r := MergeOption(opts, o);
    var k := FirstNamed(opts, o.name);
    if k < |opts| {
      var merged := opts[k].values + Unseen(opts[k].values, o.values);
      MergeValuesKeepsAndCovers(opts[k].values, o.values);
      assert r[k].values == merged;
      assert merged[..|opts[k].values|] == opts[k].values;
      assert forall v :: v in o.values ==> v in r[k].values;
    } else {
      assert forall i :: 0 <= i < |opts| ==> r[i] == opts[i];
      assert r[|opts|] == o;
      assert forall v :: v in o.values ==> v in r[|opts|].values;
    }
  }

  lemma ExtendsTransitive(a: seq<Option>, b: seq<Option>, c: seq<Option>)
    requires Extends(a, b) && Extends(b, c)
    ensures Extends(a, c)
  {
    forall i | 0 <= i < |a|
      ensures c[i].values[..|a[i].values|] == a[i].values
    {
      assert c[i].values[..|b[i].values|] == b[i].values;
      assert c[i].values[..|a[i].values|] == c[i].values[..|b[i].values|][..|a[i].values|];
    }
  }

  lemma HoldsExtended(opts: seq<Option>, opts': seq<Option>, name: string, vs: seq<string>)
    requires Holds(opts, name, vs) && Extends(opts, opts')
    ensures Holds(opts', name, vs)
  {
    var k :| 0 <= k < |opts| && opts[k].name == name && forall v :: v in vs ==> v in opts[k].values;
    forall v | v in vs
      ensures v in opts'[k].values
    {
      assert v in opts'[k].values[..|opts[k].values|];
    }
  }

  /**
   * Merging a list of options (what Config.Merge does with the options of
   * a matching section) extends the old options in place, keeps names
   * unique, and leaves every value of every incoming option under that
   * option's name.
   */
  lemma {:induction false} MergeAllProperties(opts: seq<Option>, incoming: seq<Option>)
    ensures var r := MergeAll(opts, incoming);
      Extends(opts, r) &&
      (UniqueNames(opts) ==> UniqueNames(r)) &&
      forall o :: o in incoming ==> Holds(r, o.name, o.values)
  {
    if incoming == [] {
      assert Extends(opts, opts);
    } else {
      var front := incoming[..|incoming| - 1];
      var last := incoming[|incoming| - 1];
      var mid := MergeAll(opts, front);
      MergeAllProperties(opts, front);
      MergeOptionProperties(mid, last);
      var r := MergeOption(mid, last);
      ExtendsTransitive(opts, mid, r);
      forall o | o in incoming
        ensures Holds(r, o.name, o.values)
      {
        if o != last {
          assert o in front;
          HoldsExtended(mid, r, o.name, o.values);
        }
      }
    }
  }

  /** A Section: a typed, possibly unnamed group of options. */
  class Section {
    const name: string
    const typ: string
    var options: seq<Option>

    /** newSection: a section of the given type and name with no options. */
    constructor (typ: string, name: string)
      ensures this.typ == typ && this.name == name && options == []
    {
      this.typ := typ;
      this.name := name;
      options := [];
    }

    /** Add: o is appended. */
    method Add(o: Option)
      modifies this
      ensures options == old(options) + [o]
    {
      options := options + [o];
    }

    /** Merge: o's values go into the first option of the same name, or o is appended. */
    method Merge(o: Option)
      modifies this
      ensures options == MergeOption(old(options), o)
    {
      var i := 0;
      while i < |options|
        invariant 0 <= i <= |options| && options == old(options)
        invariant forall j :: 0 <= j < i ==> options[j].name != o.name
      {
        if options[i].name == o.name {
          var merged := options[i].MergeValues(o.values);
          options := options[i := merged];
          return;
        }
        i := i + 1;
      }
      options := options + [o];
    }

    /**
     * Del: removes the first option called name and reports whether there
     * was one; the other options keep their order.
     */
    method Del(name: string) returns (found: bool)
      modifies this
      ensures found <==> exists j :: 0 <= j < |old(options)| && old(options)[j].name == name
      ensures var k := FirstNamed(old(options), name);
        options == if found then old(options)[..k] + old(options)[k + 1..] else old(options)
    {
      var i := 0;
      while i < |options| && options[i].name != name
        invariant 0 <= i <= |options|
        invariant forall j :: 0 <= j < i ==> options[j].name != name
      {
        i := i + 1;
      }
      if i == |options| {
        return false;
      }
      options := options[..i] + options[i + 1..];
      return true;
    }

    /** Get: the first option called name, if any. */
    function Get(name: string): (r: Lookup<Option>)
      reads this
      ensures r == Absent <==> forall j :: 0 <= j < |options| ==> options[j].name != name
      ensures r.Present? ==> exists k :: 0 <= k < |options| && r.value == options[k] && r.value.name == name &&
                                         forall j :: 0 <= j < k ==> options[j].name != name
    {
      var k := FirstNamed(options, name);
      if k < |options| then Present(options[k]) else Absent
    }

    /** OptionValue: the values of the first option called name, or the given defaults. */
    function OptionValue(name: string, defaults: seq<string>): (r: seq<string>)
      reads this
      ensures Get(name) == Absent ==> r == defaults
      ensures Get(name).Present? ==> r == Get(name).value.values
    {
      var k := FirstNamed(options, name);
      if k < |options| then options[k].values else defaults
    }

    /**
     * OptionLastValue: the last value of the first option called name, or
     * the given default. An option with no values would make the source
     * index out of range; callers must not ask for one.
     */
    function OptionLastValue(name: string, default: string): (r: string)
      reads this
      requires Get(name).Present? ==> Get(name).value.values != []
      ensures Get(name) == Absent ==> r == default
      ensures Get(name).Present? ==> r == Get(name).value.values[|Get(name).value.values| - 1]
    {
      var k := FirstNamed(options, name);
      if k < |options| then options[k].values[|options[k].values| - 1] else default
    }
  }

  // ---------------------------------------------------------------------
  // Positions of sections among the sections of their type
  // ---------------------------------------------------------------------

  /** The number of sections of type typ. */
  function CountType(secs: seq<Section>, typ: string): (n: nat)
    ensures n <= |secs|
  {
    if secs == [] then 0
    else CountType(secs[..|secs| - 1], typ) + (if secs[|secs| - 1].typ == typ then 1 else 0)
  }

  lemma CountTypeStep(secs: seq<Section>, i: nat, typ: string)
    requires i < |secs|
    ensures CountType(secs[..i + 1], typ) == CountType(secs[..i], typ) + (if secs[i].typ == typ then 1 else 0)
  {
    assert secs[..i + 1][..i] == secs[..i];
  }

  /** Counting distributes over concatenation. */
  lemma {:induction false} CountTypeAppend(a: seq<Section>, b: seq<Section>, typ: string)
    ensures CountType(a + b, typ) == CountType(a, typ) + CountType(b, typ)
  {
    if b == [] {
      assert a + b == a;
    } else {
      assert (a + b)[..|a + b| - 1] == a + b[..|b| - 1];
      CountTypeAppend(a, b[..|b| - 1], typ);
    }
  }

  /** A section of type typ raises the count of every longer prefix above its own position. */
  lemma CountTypeGrows(secs: seq<Section>, i: nat, j: nat, typ: string)
    requires i < j <= |secs| && secs[i].typ == typ
    ensures CountType(secs[..i], typ) < CountType(secs[..j], typ)
  {
    assert secs[..j] == secs[..i + 1] + secs[i + 1..j];
    CountTypeAppend(secs[..i + 1], secs[i + 1..j], typ);
    CountTypeStep(secs, i, typ);
  }

  /** The index of the section of type typ that has exactly n sections of that type before it. */
  function NthOfType(secs: seq<Section>, typ: string, n: nat): (i: nat)
    requires n < CountType(secs, typ)
    ensures i < |secs| && secs[i].typ == typ && CountType(secs[..i], typ) == n
  {
    var front := secs[..|secs| - 1];
    if secs[|secs| - 1].typ == typ && CountType(front, typ) == n then |secs| - 1
    else
      var i := NthOfType(front, typ, n);
      assert front[..i] == secs[..i];
      i
  }

  /** There is exactly one such section: the n-th of its type exists iff n is below the count, and it is unique. */
  lemma NthOfTypeUnique(secs: seq<Section>, typ: string, n: nat, j: nat)
    requires j < |secs| && secs[j].typ == typ && CountType(secs[..j], typ) == n
    ensures n < CountType(secs, typ) && NthOfType(secs, typ, n) == j
  {
    assert secs[..|secs|] == secs;
    CountTypeGrows(secs, j, |secs|, typ);
    var i := NthOfType(secs, typ, n);
    if i < j {
      CountTypeGrows(secs, i, j, typ);
    } else if j < i {
      CountTypeGrows(secs, j, i, typ);
    }
  }

  /** The index of the first occurrence of s. */
  function FirstIndexOf(secs: seq<Section>, s: Section): (k: nat)
    requires s in secs
    ensures k < |secs| && secs[k] == s && forall j :: 0 <= j < k ==> secs[j] != s
  {
    if secs[0] == s then 0 else 1 + FirstIndexOf(secs[1..], s)
  }

  /** The position of s among the sections of its type (Config.index). */
  function Position(secs: seq<Section>, s: Section): nat
    requires s in secs
  {
    CountType(secs[..FirstIndexOf(secs, s)], s.typ)
  }

  /** The identity of a section within a config (Config.sectionName): its name, or "@type[position]". */
  function SectionKey(secs: seq<Section>, s: Section): string
    requires s.name != "" || s in secs
  {
    if s.name != "" then s.name else Num2PlaceholderSection(s.typ, Position(secs, s))
  }

  function FirstKeyFrom(secs: seq<Section>, key: string, i: nat): (k: nat)
    requires i <= |secs|
    ensures i <= k <= |secs|
    ensures k < |secs| ==> SectionKey(secs, secs[k]) == key
    ensures forall j :: i <= j < k ==> SectionKey(secs, secs[j]) != key
    decreases |secs| - i
  {
    if i == |secs| then i
    else if SectionKey(secs, secs[i]) == key then i
    else FirstKeyFrom(secs, key, i + 1)
  }

  /** The section Config.Merge(s) merges into: the first one with s's key, or |secs| when there is none. */
  function MergeTarget(secs: seq<Section>, s: Section): (k: nat)
    requires s.name != "" || s in secs || secs == []
    ensures k <= |secs|
    ensures k < |secs| ==> SectionKey(secs, secs[k]) == SectionKey(secs, s)
    ensures forall j :: 0 <= j < k ==> SectionKey(secs, secs[j]) != SectionKey(secs, s)
  {
    if secs == [] then 0 else FirstKeyFrom(secs, SectionKey(secs, s), 0)
  }

  /** Merging a section that is already in the config never appends it. */
  lemma MergeTargetOfMember(secs: seq<Section>, s: Section)
    requires s in secs
    ensures MergeTarget(secs, s) <= FirstIndexOf(secs, s)
  {
    var i := FirstIndexOf(secs, s);
    assert SectionKey(secs, secs[i]) == SectionKey(secs, s);
  }

  /** The index of the first section called name, or |secs| when there is none. */
  function FirstSectionNamed(secs: seq<Section>, name: string): (k: nat)
    ensures k <= |secs|
    ensures k < |secs| ==> secs[k].name == name
    ensures forall j :: 0 <= j < k ==> secs[j].name != name
  {
    FirstKeyed(secs, (s: Section) => s.name, name)
  }

  // ---------------------------------------------------------------------
  // Positional lookup (getUnnamed)
  // ---------------------------------------------------------------------

  /** Why a positional lookup failed: a malformed selector, or an index out of range. */
  datatype LookupError = BadSelector(cause: SelectorError) | IndexOutOfBounds

  /**
   * The index of the section a selector "@type[index]" designates: the
   * index-th section of that type, counting from the end when the index is
   * negative.
   */
  function Resolve(secs: seq<Section>, name: string): (r: Result<nat, LookupError>)
    ensures r.Ok? ==> r.value < |secs|
  {
    match UnmangleAsWritten(name)
    case Err(e) => Err(BadSelector(e))
    case Ok(sel) => Locate(secs, sel)
  }

  /** The index of the section a parsed selector designates, once its syntax is known to be valid. */
  function Locate(secs: seq<Section>, sel: Selector): (r: Result<nat, LookupError>)
    ensures r.Ok? ==> r.value < |secs|
  {
    var count: int := CountType(secs, sel.typ);
    if -count > sel.index || sel.index >= count then Err(IndexOutOfBounds)
    else Ok(NthOfType(secs, sel.typ, if sel.index < 0 then sel.index + count else sel.index))
  }

  /**
   * A selector for type t and index n fails exactly when n is outside
   * [-count, count), and otherwise designates the section of type t that
   * has n (or n + count) sections of type t before it.
   */
  lemma ResolvePlaceholder(secs: seq<Section>, t: string, n: int)
    requires t != [] && forall c :: c in t ==> c != '@' && c != '[' && c != ']'
    ensures var r := Resolve(secs, Num2PlaceholderSection(t, n));
      var count: int := CountType(secs, t);
      (r.Err? <==> n >= count || n < -count) &&
      (r.Err? ==> r.error == IndexOutOfBounds) &&
      (r.Ok? ==> secs[r.value].typ == t && CountType(secs[..r.value], t) == (if n < 0 then n + count else n))
  {
    UnmangleAsWrittenNum2Placeholder(t, n);
  }

  /** A negative index -k designates the same section as count - k. */
  lemma ResolveNegative(secs: seq<Section>, t: string, n: int)
    requires t != [] && forall c :: c in t ==> c != '@' && c != '[' && c != ']'
    requires -(CountType(secs, t) as int) <= n < 0
    ensures Resolve(secs, Num2PlaceholderSection(t, n)) ==
            Resolve(secs, Num2PlaceholderSection(t, n + CountType(secs, t)))
  {
    UnmangleAsWrittenNum2Placeholder(t, n);
    UnmangleAsWrittenNum2Placeholder(t, n + CountType(secs, t));
  }

  /**
   * Every section, named or not, is reachable by position: the selector
   * built from its type and its position among that type finds it.
   */
  lemma ResolveEverySection(secs: seq<Section>, i: nat)
    requires i < |secs|
    requires secs[i].typ != [] && forall c :: c in secs[i].typ ==> c != '@' && c != '[' && c != ']'
    ensures Resolve(secs, Num2PlaceholderSection(secs[i].typ, CountType(secs[..i], secs[i].typ))) == Ok(i)
  {
    var t := secs[i].typ;
    UnmangleAsWrittenNum2Placeholder(t, CountType(secs[..i], t));
    NthOfTypeUnique(secs, t, CountType(secs[..i], t), i);
  }

  /**
   * Get and getUnnamed parse with unmangleSectionName as written, so a
   * selector missing its ']' is read without its last character.
   */
  lemma ResolveUnclosed(secs: seq<Section>)
    ensures Resolve(secs, "@a[12") == Resolve(secs, "@a[1]")
  {
    TrailingCharIgnored();
    assert Num2PlaceholderSection("a", 1) == "@a[1]";
    UnmangleAsWrittenNum2Placeholder("a", 1);
  }

  // ---------------------------------------------------------------------
  // Deletion (Config.Del)
  // ---------------------------------------------------------------------

  /** The index Del reads from a placeholder name: the selector's index, or 0 when it does not parse. */
  function PlaceholderIndexOf(name: string): int {
    match Unmangle(name)
    case Ok(sel) => sel.index
    case Err(_) => 0
  }

  /**
   * Section i matches Del(name), where index is the index read from name:
   * the section is called name, or name is a placeholder of its type and
   * index is the section's position among that type.
   */
  predicate DelMatch(secs: seq<Section>, i: nat, name: string, index: int)
    requires i < |secs|
  {
    secs[i].name == name ||
    (IsPlaceholderName(name, secs[i].typ) && index == CountType(secs[..i], secs[i].typ))
  }

  function FirstDelMatch(secs: seq<Section>, name: string, index: int, i: nat): (k: nat)
    requires i <= |secs|
    ensures i <= k <= |secs|
    ensures k < |secs| ==> DelMatch(secs, k, name, index)
    ensures forall j :: i <= j < k ==> !DelMatch(secs, j, name, index)
    decreases |secs| - i
  {
    if i == |secs| then i
    else if DelMatch(secs, i, name, index) then i
    else FirstDelMatch(secs, name, index, i + 1)
  }

  /** The section Del(name) removes: the first match, or |secs| when nothing matches. */
  function DelTarget(secs: seq<Section>, name: string): (k: nat)
    ensures k <= |secs|
    ensures k < |secs| ==> DelMatch(secs, k, name, PlaceholderIndexOf(name))
    ensures forall j :: 0 <= j < k ==> !DelMatch(secs, j, name, PlaceholderIndexOf(name))
  {
    FirstDelMatch(secs, name, PlaceholderIndexOf(name), 0)
  }

  /** In "@" + t + "[" + d + "]" with no '[' in t or d, the only '[' follows t. */
  lemma OnlyBracket(t: string, d: string, m: nat)
    requires '[' !in t && '[' !in d && m < |t| + |d| + 3
    ensures ("@" + t + "[" + d + "]")[m] == '[' ==> m == |t| + 1
  {
    var name := "@" + t + "[" + d + "]";
    if 1 <= m <= |t| {
      assert name[m] == t[m - 1] && t[m - 1] in t;
    } else if |t| + 2 <= m < |name| - 1 {
      assert name[m] == d[m - |t| - 2] && d[m - |t| - 2] in d;
    }
  }

  /** A synthetic name "@t[n]" is a placeholder of type t' exactly when t' is t and n is not negative. */
  lemma PlaceholderTypeOf(t: string, n: int, t': string)
    requires '[' !in t
    ensures IsPlaceholderName(Num2PlaceholderSection(t, n), t') <==> t' == t && n >= 0
  {
    var d := Itoa(n);
    var name := "@" + t + "[" + d + "]";
    PlaceholderNameOfNum(t, n);
    if IsPlaceholderName(name, t') {
      ItoaChars(n);
      assert '[' !in d;
      var prefix := name[..|t'| + 2];
      assert prefix == "@" + t' + "[";
      assert name[|t'| + 1] == prefix[|t'| + 1] == '[';
      OnlyBracket(t, d, |t'| + 1);
      assert t' == prefix[1..|t'| + 1] == name[1..|t| + 1] == t;
    }
  }

  /**
   * Del("@t[n]") with n >= 0 removes the n-th section of type t (or
   * nothing when there are fewer), provided no section is literally
   * called "@t[n]".
   */
  lemma DelPlaceholder(secs: seq<Section>, t: string, n: nat)
    requires t != [] && forall c :: c in t ==> c != '@' && c != '[' && c != ']'
    requires forall j :: 0 <= j < |secs| ==> secs[j].name != Num2PlaceholderSection(t, n)
    ensures DelTarget(secs, Num2PlaceholderSection(t, n)) ==
            if n < CountType(secs, t) then NthOfType(secs, t, n) else |secs|
  {
    var name := Num2PlaceholderSection(t, n);
    UnmangleNum2Placeholder(t, n);
    assert PlaceholderIndexOf(name) == n;
    forall j | 0 <= j < |secs|
      ensures DelMatch(secs, j, name, n) <==> secs[j].typ == t && CountType(secs[..j], t) == n
    {
      PlaceholderTypeOf(t, n, secs[j].typ);
    }
    var k := DelTarget(secs, name);
    if k < |secs| {
      NthOfTypeUnique(secs, t, n, k);
    }
  }

  /**
   * Without a section literally called "@t[n]", Del and Get address the
   * same section for every n >= 0 in range.
   */
  lemma DelAgreesWithGet(secs: seq<Section>, t: string, n: nat)
    requires t != [] && forall c :: c in t ==> c != '@' && c != '[' && c != ']'
    requires forall j :: 0 <= j < |secs| ==> secs[j].name != Num2PlaceholderSection(t, n)
    requires n < CountType(secs, t)
    ensures Resolve(secs, Num2PlaceholderSection(t, n)) == Ok(DelTarget(secs, Num2PlaceholderSection(t, n)))
  {
    DelPlaceholder(secs, t, n);
    ResolvePlaceholder(secs, t, n);
    var r := Resolve(secs, Num2PlaceholderSection(t, n));
    NthOfTypeUnique(secs, t, n, r.value);
  }

  /** Del("@t[n]") with n < 0 is never positional: it removes only a section literally called so. */
  lemma DelNegativeIsLiteral(secs: seq<Section>, t: string, n: int)
    requires '[' !in t && n < 0
    ensures DelTarget(secs, Num2PlaceholderSection(t, n)) == FirstSectionNamed(secs, Num2PlaceholderSection(t, n))
  {
    var name := Num2PlaceholderSection(t, n);
    forall j | 0 <= j < |secs|
      ensures DelMatch(secs, j, name, PlaceholderIndexOf(name)) <==> secs[j].name == name
    {
      PlaceholderTypeOf(t, n, secs[j].typ);
    }
  }

  // ---------------------------------------------------------------------
  // Rendering (Config.WriteTo)
  // ---------------------------------------------------------------------

  /** What WriteTo reads of a section: its type, its name and its options. */
  datatype SectionView = SectionView(typ: string, name: string, options: seq<Option>)

  /** The sections as WriteTo sees them, in order. */
  function View(secs: seq<Section>): (v: seq<SectionView>)
    reads secs
    ensures |v| == |secs|
    ensures forall i :: 0 <= i < |secs| ==> v[i] == SectionView(secs[i].typ, secs[i].name, secs[i].options)
  {
    seq(|secs|, i reads secs requires 0 <= i < |secs| => SectionView(secs[i].typ, secs[i].name, secs[i].options))
  }

  /** A single-value option needs a first value to be written. */
  predicate OptionWritable(o: Option) {
    o.typ == TypeOption ==> o.values != []
  }

  predicate OptionsWritable(opts: seq<Option>) {
    forall j :: 0 <= j < |opts| ==> OptionWritable(opts[j])
  }

  /** Every option of every section can be written. */
  predicate Writable(views: seq<SectionView>) {
    forall i :: 0 <= i < |views| ==> OptionsWritable(views[i].options)
  }

  /** One "list" line per value, in order. */
  function ListLines(key: string, vs: seq<string>): string {
    if vs == [] then ""
    else ListLines(key, vs[..|vs| - 1]) + "\tlist " + key + " '" + vs[|vs| - 1] + "'\n"
  }

  /** An option's lines: its first value for a single-value option, every value for a list. */
  function OptionText(o: Option): string
    requires OptionWritable(o)
  {
    match o.typ
    case TypeOption => "\toption " + o.name + " '" + o.values[0] + "'\n"
    case TypeList => ListLines(o.name, o.values)
  }

  function OptionsText(opts: seq<Option>): string
    requires OptionsWritable(opts)
  {
    if opts == [] then ""
    else OptionsText(opts[..|opts| - 1]) + OptionText(opts[|opts| - 1])
  }

  /** A section's header line; unnamed and placeholder-named sections show only their type. */
  function Header(typ: string, name: string): string {
    if name == "" || IsPlaceholderName(name, typ) then "\nconfig " + typ + "\n"
    else "\nconfig " + typ + " '" + name + "'\n"
  }

  /** One section's block: its header line, then its options' lines. */
  function Block(v: SectionView): (r: string)
    requires OptionsWritable(v.options)
    ensures |r| > 8 && r[..8] == "\nconfig "
  {
    var h := Header(v.typ, v.name);
    assert h[..8] == "\nconfig ";
    h + OptionsText(v.options)
  }

  /** A list option's lines for consecutive value lists are those lists' lines one after another. */
  lemma {:induction false} ListLinesAppend(key: string, a: seq<string>, b: seq<string>)
    ensures ListLines(key, a + b) == ListLines(key, a) + ListLines(key, b)
  {
    if b == [] {
      assert a + b == a;
    } else {
      assert (a + b)[..|a + b| - 1] == a + b[..|b| - 1];
      ListLinesAppend(key, a, b[..|b| - 1]);
    }
  }

  /** A single-value option writes only its first value. */
  lemma OptionTextExample()
    ensures OptionText(Option("host", ["a", "b"], TypeOption)) == "\toption host 'a'\n"
  {
  }

  /** A list option writes one line per value, in order. */
  lemma ListTextExample()
    ensures OptionText(Option("dns", ["x", "y"], TypeList)) == "\tlist dns 'x'\n\tlist dns 'y'\n"
  {
    var one := ListLines("dns", ["x"]);
    assert one == "\tlist dns 'x'\n" by {
      assert ["x"][..0] == [];
    }
    assert ListLines("dns", ["x", "y"]) == one + "\tlist dns 'y'\n" by {
      assert ["x", "y"][..1] == ["x"];
    }
  }

  /** The header of a named section, an unnamed one and one named by a placeholder of its own type. */
  lemma HeaderExample()
    ensures Header("wifi", "lan") == "\nconfig wifi 'lan'\n"
    ensures Header("wifi", "") == "\nconfig wifi\n"
    ensures Header("wifi", "@wifi[0]") == "\nconfig wifi\n"
  {
    assert ("@wifi[0]")[..6] == "@" + "wifi" + "[";
    assert AllDigits(("@wifi[0]")[6..7]);
  }

  /** f applied to every element of xs, in order. */
  function Map<T, U>(f: T --> U, xs: seq<T>): (ys: seq<U>)
    requires forall i :: 0 <= i < |xs| ==> f.requires(xs[i])
    ensures |ys| == |xs| && forall i :: 0 <= i < |xs| ==> ys[i] == f(xs[i])
  {
    if xs == [] then [] else Map(f, xs[..|xs| - 1]) + [f(xs[|xs| - 1])]
  }

  lemma MapAppend<T, U>(f: T --> U, a: seq<T>, b: seq<T>)
    requires forall i :: 0 <= i < |a| ==> f.requires(a[i])
    requires forall i :: 0 <= i < |b| ==> f.requires(b[i])
    ensures forall i :: 0 <= i < |a + b| ==> f.requires((a + b)[i])
    ensures Map(f, a + b) == Map(f, a) + Map(f, b)
  {
    assert forall i :: 0 <= i < |a| ==> (a + b)[i] == a[i];
    assert forall i :: |a| <= i < |a + b| ==> (a + b)[i] == b[i - |a|];
  }

  /** The concatenation of the given texts, in order. */
  function Concat(ss: seq<string>): string {
    if ss == [] then "" else Concat(ss[..|ss| - 1]) + ss[|ss| - 1]
  }

  lemma {:induction false} ConcatAppend(xs: seq<string>, ys: seq<string>)
    ensures Concat(xs + ys) == Concat(xs) + Concat(ys)
  {
    if ys == [] {
      assert xs + ys == xs;
    } else {
      assert (xs + ys)[..|xs + ys| - 1] == xs + ys[..|ys| - 1];
      ConcatAppend(xs, ys[..|ys| - 1]);
    }
  }

  /** The text of the sections: their blocks one after another. */
  function SectionsText(views: seq<SectionView>): string
    requires Writable(views)
  {
    Concat(Map(Block, views))
  }

  /** A placeholder name of the section's own type is not written out; a negative one is. */
  lemma HeaderOfPlaceholder(t: string, n: int)
    ensures n >= 0 ==> Header(t, Num2PlaceholderSection(t, n)) == Header(t, "")
    ensures n < 0 ==> Header(t, Num2PlaceholderSection(t, n)) == "\nconfig " + t + " '" + Num2PlaceholderSection(t, n) + "'\n"
  {
    PlaceholderNameOfNum(t, n);
  }

  /** The text of consecutive sections is the concatenation of their texts. */
  lemma SectionsTextAppend(a: seq<SectionView>, b: seq<SectionView>)
    requires Writable(a) && Writable(b)
    ensures Writable(a + b)
    ensures SectionsText(a + b) == SectionsText(a) + SectionsText(b)
  {
    MapAppend(Block, a, b);
    ConcatAppend(Map(Block, a), Map(Block, b));
  }

  /** The text of a single section is its block. */
  lemma SectionsTextSingle(v: SectionView)
    requires OptionsWritable(v.options)
    ensures Writable([v]) && SectionsText([v]) == Block(v)
  {
    assert Map(Block, [v]) == [Block(v)];
    assert Concat([Block(v)]) == Concat([]) + Block(v);
  }

  /** Removing the k-th section removes exactly its block from the text. */
  lemma SectionsTextRemove(views: seq<SectionView>, k: nat)
    requires k < |views| && Writable(views)
    ensures Writable(views[..k] + views[k + 1..])
    ensures SectionsText(views) == SectionsText(views[..k]) + Block(views[k]) + SectionsText(views[k + 1..])
    ensures SectionsText(views[..k] + views[k + 1..]) == SectionsText(views[..k]) + SectionsText(views[k + 1..])
  {
    var front, back := views[..k], views[k + 1..];
    assert views == front + [views[k]] + back;
    SectionsTextAppend(front + [views[k]], back);
    SectionsTextAppend(front, [views[k]]);
    SectionsTextSingle(views[k]);
    SectionsTextAppend(front, back);
  }

  lemma ViewTake(secs: seq<Section>, k: nat)
    requires k <= |secs|
    ensures View(secs[..k]) == View(secs)[..k]
  {
    var a, b := View(secs[..k]), View(secs)[..k];
    forall i | 0 <= i < |a|
      ensures a[i] == b[i]
    {
      assert secs[..k][i] == secs[i];
    }
  }

  lemma ViewDrop(secs: seq<Section>, k: nat)
    requires k <= |secs|
    ensures View(secs[k..]) == View(secs)[k..]
  {
    var a, b := View(secs[k..]), View(secs)[k..];
    forall i | 0 <= i < |a|
      ensures a[i] == b[i]
    {
      assert secs[k..][i] == secs[k + i];
    }
  }

  lemma ViewConcat(a: seq<Section>, b: seq<Section>)
    ensures View(a + b) == View(a) + View(b)
  {
    var l, r := View(a + b), View(a) + View(b);
    assert |l| == |r|;
    forall i | 0 <= i < |l|
      ensures l[i] == r[i]
    {
      if i < |a| {
        assert (a + b)[i] == a[i];
      } else {
        assert (a + b)[i] == b[i - |a|];
      }
    }
  }

  /** The written text of the sections is the text before section k, then its block, then the text after it. */
  lemma WriteToSplit(secs: seq<Section>, k: nat)
    requires k < |secs| && Writable(View(secs))
    ensures SectionsText(View(secs)) ==
            SectionsText(View(secs[..k])) + Block(View(secs)[k]) + SectionsText(View(secs[k + 1..]))
  {
    ViewTake(secs, k);
    ViewDrop(secs, k + 1);
    SectionsTextRemove(View(secs), k);
  }

  /** What WriteTo sees after section k is deleted: the view with entry k removed. */
  lemma ViewRemove(secs: seq<Section>, k: nat)
    requires k < |secs|
    ensures View(secs[..k] + secs[k + 1..]) == View(secs)[..k] + View(secs)[k + 1..]
  {
    ViewTake(secs, k);
    ViewDrop(secs, k + 1);
    ViewConcat(secs[..k], secs[k + 1..]);
  }

  /**
   * Deleting section k (as Config.Del does with k = DelTarget) leaves the
   * text of the sections before it followed by the text of those after it:
   * the old text with exactly section k's block cut out.
   */
  lemma WriteToRemove(secs: seq<Section>, k: nat)
    requires k < |secs| && Writable(View(secs))
    ensures Writable(View(secs[..k] + secs[k + 1..]))
    ensures SectionsText(View(secs)) ==
            SectionsText(View(secs[..k])) + Block(View(secs)[k]) + SectionsText(View(secs[k + 1..]))
    ensures SectionsText(View(secs[..k] + secs[k + 1..])) ==
            SectionsText(View(secs[..k])) + SectionsText(View(secs[k + 1..]))
  {
    WriteToSplit(secs, k);
    ViewRemove(secs, k);
    ViewTake(secs, k);
    ViewDrop(secs, k + 1);
    SectionsTextRemove(View(secs), k);
  }

  /** Appending a section appends its block to the written text. */
  lemma WriteToAppend(secs: seq<Section>, x: Section)
    requires Writable(View(secs)) && OptionsWritable(x.options)
    ensures Writable(View(secs + [x]))
    ensures SectionsText(View(secs + [x])) == SectionsText(View(secs)) + Block(SectionView(x.typ, x.name, x.options))
  {
    var v := SectionView(x.typ, x.name, x.options);
    ViewConcat(secs, [x]);
    assert View([x]) == [v];
    SectionsTextAppend(View(secs), [v]);
    SectionsTextSingle(v);
  }

  // ---------------------------------------------------------------------
  // Configs
  // ---------------------------------------------------------------------

  /** A Config: one UCI file, an ordered list of sections. */
  class Config {
    const name: string
    var sections: seq<Section>

    /** newConfig: a config of the given name with no sections. */
    constructor (name: string)
      ensures this.name == name && sections == []
    {
      this.name := name;
      sections := [];
    }

    /**
     * WriteTo: every section as "\nconfig type" (with " 'name'" when the
     * section has a name that is not a placeholder of its type), followed by
     * its options, and a final "\n".
     */
    function WriteTo(): (out: string)
      reads this, sections
      requires forall i :: 0 <= i < |sections| ==> OptionsWritable(sections[i].options)
      ensures |out| >= 1 && out[|out| - 1] == '\n'
      ensures sections == [] ==> out == "\n"
    {
      SectionsText(View(sections)) + "\n"
    }

    /** count: the number of sections of type typ. */
    method Count(typ: string) returns (n: nat)
      ensures n == CountType(sections, typ)
    {
      n := 0;
      for i := 0 to |sections|
        invariant n == CountType(sections[..i], typ)
      {
        CountTypeStep(sections, i, typ);
        if sections[i].typ == typ {
          n := n + 1;
        }
      }
      assert sections[..|sections|] == sections;
    }

    /** index: the position of s among the sections of its type; s must be in the config. */
    method Index(s: Section) returns (i: nat)
      requires s in sections
      ensures i == Position(sections, s)
    {
      i := 0;
      var j := 0;
      while j < |sections|
        invariant 0 <= j <= FirstIndexOf(sections, s)
        invariant i == CountType(sections[..j], s.typ)
      {
        if sections[j] == s {
          return;
        }
        CountTypeStep(sections, j, s.typ);
        if sections[j].typ == s.typ {
          i := i + 1;
        }
        j := j + 1;
      }
      assert false;
    }

    /** sectionName: the section's name, or "@type[position]" for an unnamed section. */
    method SectionName(s: Section) returns (key: string)
      requires s.name != "" || s in sections
      ensures key == SectionKey(sections, s)
    {
      if s.name != "" {
        return s.name;
      }
      var i := Index(s);
      key := Num2PlaceholderSection(s.typ, i);
    }

    /** getNamed: the first section called name, or null. */
    function GetNamed(name: string): (r: Section?)
      reads this
      ensures r == null <==> forall j :: 0 <= j < |sections| ==> sections[j].name != name
      ensures r != null ==> exists k :: 0 <= k < |sections| && r == sections[k] && r.name == name &&
                                         forall j :: 0 <= j < k ==> sections[j].name != name
    {
      var k := FirstSectionNamed(sections, name);
      if k < |sections| then sections[k] else null
    }

    /** getUnnamed: the section a selector "@type[index]" designates, or why there is none. */
    method GetUnnamed(name: string) returns (r: Result<Section, LookupError>)
      ensures match Resolve(sections, name)
        case Ok(i) => r == Ok(sections[i])
        case Err(e) => r == Err(e)
    {
      var sel := UnmangleAsWritten(name);
      if sel.Err? {
        return Err(BadSelector(sel.error));
      }
      r := LocateSection(sel.value);
    }

    /** The bounds check and positional scan of getUnnamed, for a selector that parsed. */
    method LocateSection(sel: Selector) returns (r: Result<Section, LookupError>)
      ensures match Locate(sections, sel)
        case Ok(i) => r == Ok(sections[i])
        case Err(e) => r == Err(e)
    {
      var typ := sel.typ;
      var idx := sel.index;
      var count := Count(typ);
      if -(count as int) > idx || idx >= count {
        return Err(IndexOutOfBounds);
      }
      if idx < 0 {
        idx := idx + count;
      }
      var i, n := 0, 0;
      while i < |sections|
        invariant 0 <= i <= |sections|
        invariant n == CountType(sections[..i], typ) && i <= NthOfType(sections, typ, idx)
      {
        CountTypeStep(sections, i, typ);
        if sections[i].typ == typ {
          if idx == n {
            NthOfTypeUnique(sections, typ, n, i);
            return Ok(sections[i]);
          }
          n := n + 1;
        }
        i := i + 1;
      }
      assert false;
    }

    /** Get: positional lookup for names starting with "@", lookup by name otherwise; null when nothing is found. */
    method Get(name: string) returns (r: Section?)
      ensures |name| > 0 && name[0] == '@' ==>
        r == match Resolve(sections, name) case Ok(i) => sections[i] case Err(_) => null
      ensures !(|name| > 0 && name[0] == '@') ==> r == GetNamed(name)
    {
      if |name| > 0 && name[0] == '@' {
        var found := GetUnnamed(name);
        r := if found.Ok? then found.value else null;
        return;
      }
      r := GetNamed(name);
    }

    /** Add: s is appended and returned. */
    method Add(s: Section) returns (r: Section)
      modifies this
      ensures sections == old(sections) + [s] && r == s
    {
      sections := sections + [s];
      r := s;
    }

    /**
     * Merge: the options of s are merged, one by one, into the first
     * section with the same key as s, which is returned; when there is
     * none, s is appended and returned.
     */
    method Merge(s: Section) returns (r: Section)
      requires s.name != "" || s in sections || sections == []
      modifies this, sections
      ensures var k := MergeTarget(old(sections), s);
        if k < |old(sections)| then
          r == old(sections)[k] && sections == old(sections) &&
          r.options == MergeAll(old(r.options), old(s.options))
        else
          r == s && sections == old(sections) + [s] && s.options == old(s.options)
      ensures forall x :: x in old(sections) && x != r ==> x.options == old(x.options)
    {
      var k := 0;
      while k < |sections|
        invariant 0 <= k <= |sections| && sections == old(sections)
        invariant forall j :: 0 <= j < k ==> SectionKey(sections, sections[j]) != SectionKey(sections, s)
        invariant s.options == old(s.options)
        invariant forall x :: x in old(sections) ==> x.options == old(x.options)
      {
        var sname := SectionName(s);
        var cname := SectionName(sections[k]);
        if sname == cname {
          break;
        }
        k := k + 1;
      }
      if k == |sections| {
        r := Add(s);
        return;
      }
      r := sections[k];
      var incoming := s.options;
      for i := 0 to |incoming|
        invariant sections == old(sections)
        invariant r.options == MergeAll(old(r.options), incoming[..i])
        invariant forall x :: x in old(sections) && x != r ==> x.options == old(x.options)
      {
        assert incoming[..i + 1][..i] == incoming[..i];
        r.Merge(incoming[i]);
      }
      assert incoming[..|incoming|] == incoming;
    }

    /**
     * Del: removes the first section called name or, for a placeholder
     * name "@type[n]", the first section of that type with n sections of
     * that type before it; nothing when no section matches.
     */
    method Del(name: string)
      modifies this
      ensures var k := DelTarget(old(sections), name);
        sections == if k < |old(sections)| then old(sections)[..k] + old(sections)[k + 1..] else old(sections)
    {
      var i := DelPosition(name, PlaceholderIndexOf(name));
      if i < |sections| {
        sections := sections[..i] + sections[i + 1..];
      }
    }

    /**
     * The scan of Del: the index of the first matching section, counting
     * the sections of every placeholder type seen so far. index is what
     * unmangleSectionName reads from name; it does not change during the
     * scan.
     */
    method DelPosition(name: string, index: int) returns (i: nat)
      ensures i == FirstDelMatch(sections, name, index, 0)
    {
      i := 0;
      var indexs: map<string, int> := map[];
      while i < |sections|
        invariant 0 <= i <= |sections|
        invariant forall j :: 0 <= j < i ==> !DelMatch(sections, j, name, index)
        invariant forall t :: t in indexs ==> IsPlaceholderName(name, t) && indexs[t] == CountType(sections[..i], t)
        invariant forall t :: t !in indexs && IsPlaceholderName(name, t) ==> CountType(sections[..i], t) == 0
      {
        var sec := sections[i];
        forall t
          ensures CountType(sections[..i + 1], t) == CountType(sections[..i], t) + (if sec.typ == t then 1 else 0)
        {
          CountTypeStep(sections, i, t);
        }
        if IsPlaceholderName(name, sec.typ) {
          if sec.typ !in indexs {
            indexs := indexs[sec.typ := 0];
          }
          if index == indexs[sec.typ] {
            assert DelMatch(sections, i, name, index);
            break;
          }
          indexs := indexs[sec.typ := indexs[sec.typ] + 1];
        }
        if sec.name == name {
          assert DelMatch(sections, i, name, index);
          break;
        }
        i := i + 1;
      }
    }
  }
}
