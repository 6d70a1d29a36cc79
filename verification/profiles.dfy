/** The profile store: the map from profile name to its ordered program paths,
    the profile file it is loaded from and written to, and the list and map
    operations that editing a profile performs. */
module Profiles {
  import opened Wrappers

  /** A program path: an opaque string, never normalised or checked. */
  type Path = string

  /** Profile name to program paths; list order is launch and display order. */
  type Profiles = map<string, seq<Path>>

  /** The built-in profiles, in the order the main window looks them up. */
  const DefaultNames: seq<string> := ["Estudo", "Jogos", "Trabalho"]

  /** The collection used when no profile file exists. */
  function Defaults(): (m: Profiles)
    ensures m.Keys == {"Estudo", "Jogos", "Trabalho"}
    ensures forall n :: n in m ==> m[n] == []
  {
    map["Estudo" := [], "Jogos" := [], "Trabalho" := []]
  }

  /** What the profile file holds. `Garbled` stands for any content that
      does not parse as an object mapping names to lists of paths. */
  datatype File = Absent | Garbled | Written(content: Profiles)

  /** The profile file together with the log of every write made to it,
      oldest first. */
  datatype Disk = Disk(file: File, writes: seq<Profiles>)

  datatype LoadError = FormatError

  /** Reading the profile file at startup. */
  function Load(f: File): (r: Result<Profiles, LoadError>)
    ensures r.Err? <==> f.Garbled?
    ensures f.Absent? ==> r.Ok? && r.value.Keys == {"Estudo", "Jogos", "Trabalho"}
    ensures f.Absent? ==> forall n :: n in r.value ==> r.value[n] == []
  {
    match f
    case Absent => Ok(Defaults())
    case Garbled => Err(FormatError)
    case Written(m) => Ok(m)
  }

  /** Overwriting the profile file with the whole collection. */
  function Save(d: Disk, m: Profiles): (d': Disk)
    ensures Load(d'.file) == Ok(m)
    ensures |d'.writes| == |d.writes| + 1 && d'.writes[..|d.writes|] == d.writes
    ensures d'.writes[|d.writes|] == m
  {
    Disk(Written(m), d.writes + [m])
  }

  /** Position of the first occurrence of `x` in `s`. */
  function IndexOf(s: seq<Path>, x: Path): (i: nat)
    requires x in s
    ensures i < |s| && s[i] == x
    ensures x !in s[..i]
  {
    if s[0] == x then 0
    else
      var j := IndexOf(s[1..], x);
      assert s[1..][..j] == s[1..j + 1];
      j + 1
  }

  /** Python's `list.remove`: drops the first element equal to `x`; `None`
      stands for the ValueError raised when there is none. */
  function RemoveFirst(s: seq<Path>, x: Path): (r: Option<seq<Path>>)
    ensures r.None? <==> x !in s
    ensures r.Some? ==> |r.value| == |s| - 1
    ensures r.Some? ==> r.value == s[..IndexOf(s, x)] + s[IndexOf(s, x) + 1..]
    ensures r.Some? ==> multiset(r.value) + multiset{x} == multiset(s)
  {
    if s == [] then None
    else
      assert s == [s[0]] + s[1..];
      if s[0] == x then Some(s[1..])
      else
        match RemoveFirst(s[1..], x)
        case None => None
        case Some(t) =>
          ConsRemoveAt(s, IndexOf(s[1..], x));
          Some([s[0]] + t)
  }

  /** Removing position `j` of the tail is removing position `j + 1` of the
      whole sequence. */
  lemma ConsRemoveAt<T>(s: seq<T>, j: nat)
    requires j + 1 < |s|
    ensures [s[0]] + (s[1..][..j] + s[1..][j + 1..]) == s[..j + 1] + s[j + 2..]
  {
    assert s[1..][..j] == s[1..j + 1];
    assert s[1..][j + 1..] == s[j + 2..];
    assert [s[0]] + s[1..j + 1] == s[..j + 1];
  }

  /** Dropping one position removes exactly that element from the multiset. */
  lemma MultisetRemoveAt<T>(s: seq<T>, i: nat)
    requires i < |s|
    ensures multiset(s[..i] + s[i + 1..]) == multiset(s) - multiset{s[i]}
  {
    assert s == s[..i] + [s[i]] + s[i + 1..];
  }

  /** Appending a path to an existing profile, the store-level meaning of
      an add. */
  function Append(m: Profiles, name: string, p: Path): (m': Profiles)
    requires name in m
    ensures m'.Keys == m.Keys
    ensures |m'[name]| == |m[name]| + 1 && m'[name][..|m[name]|] == m[name] && m'[name][|m[name]|] == p
    ensures forall n :: n in m && n != name ==> m'[n] == m[n]
  {
    m[name := m[name] + [p]]
  }

  /** Removing the first copy of a path from an existing profile, the
      store-level meaning of a removal; `None` when the path is not listed. */
  function RemovePath(m: Profiles, name: string, p: Path): (r: Option<Profiles>)
    requires name in m
    ensures r.None? <==> p !in m[name]
    ensures r.Some? ==> r.value.Keys == m.Keys
    ensures r.Some? ==> r.value[name] == m[name][..IndexOf(m[name], p)] + m[name][IndexOf(m[name], p) + 1..]
    ensures r.Some? ==> multiset(r.value[name]) + multiset{p} == multiset(m[name])
    ensures r.Some? ==> forall n :: n in m && n != name ==> r.value[n] == m[n]
  {
    match RemoveFirst(m[name], p)
    case None => None
    case Some(t) =>
      var m' := m[name := t];
      assert m'.Keys == m.Keys && m'[name] == t;
      Some(m')
  }
}
