/**
 * The effort side of the catalog: software efforts, their four kinds of
 * local profile (one table each), and the store that holds them next to
 * the program rows. Efforts are kept in storage-key order, so the first
 * match in the sequence is the row an unordered `.first()` returns.
 */
module Efforts {
  import opened Wrappers
  import opened Programs

  /** A scalar as it arrives in a payload: null, text, an integer or a boolean. */
  datatype Scalar = Null | Text(s: string) | Integer(n: int) | Flag(b: bool)

  /** Python truthiness of a scalar. */
  predicate Truthy(v: Scalar)
  {
    match v
    case Null => false
    case Text(s) => s != ""
    case Integer(n) => n != 0
    case Flag(b) => b
  }

  /** Python truthiness of an optional text: neither None nor "". */
  predicate TruthyText(s: Option<string>)
  {
    s.Some? && s.value != ""
  }

  /** The four aspects an effort either inherits or overrides with a local profile. */
  datatype Aspect = StatementOfWork | TechnicalContacts | DeveloperSetup | WorkLocation

  /** One value per aspect. */
  datatype PerAspect<T> = PerAspect(statementOfWork: T, technicalContacts: T, developerSetup: T, workLocation: T)
  {
    function Get(a: Aspect): T
    {
      match a
      case StatementOfWork => statementOfWork
      case TechnicalContacts => technicalContacts
      case DeveloperSetup => developerSetup
      case WorkLocation => workLocation
    }

    /** The same values with the one for `a` replaced by `v`. */
    function With(a: Aspect, v: T): (r: PerAspect<T>)
      ensures r.Get(a) == v && forall b :: b != a ==> r.Get(b) == Get(b)
    {
      match a
      case StatementOfWork => this.(statementOfWork := v)
      case TechnicalContacts => this.(technicalContacts := v)
      case DeveloperSetup => this.(developerSetup := v)
      case WorkLocation => this.(workLocation := v)
    }
  }

  /** The attribute bag of a profile, as its dumped field map. */
  type Attributes = map<string, Scalar>

  /** One profile table: rows by storage key, and the key the next created row receives. */
  datatype ProfileTable = ProfileTable(rows: map<nat, Attributes>, nextKey: nat)

  /** The linked-efforts relation in its two storage shapes. */
  datatype Links =
    | LinkedEfforts(targets: set<nat>)
    | LinkedIds(ids: seq<Option<string>>)

  datatype Effort = Effort(
    key: nat,
    uuid: string,
    name: string,
    program: nat,
    parent: Option<nat>,
    inherit: PerAspect<bool>,
    local: PerAspect<Option<nat>>,
    links: Links)

  /**
   * The store: program rows and efforts in storage-key order, one profile
   * table per aspect, the key the next created effort receives, and whether
   * the linked-efforts field is a many-to-many relation.
   */
  datatype Catalog = Catalog(
    programs: seq<ProgramInfo>,
    efforts: seq<Effort>,
    profiles: PerAspect<ProfileTable>,
    nextEffortKey: nat,
    manyToMany: bool)

  /** The linked-efforts value a freshly created effort starts with. */
  function NoLinks(manyToMany: bool): (l: Links)
    ensures l.LinkedEfforts? == manyToMany
  {
    if manyToMany then LinkedEfforts({}) else LinkedIds([])
  }

  /** The first position whose element satisfies `p`. */
  function FirstMatch<T>(s: seq<T>, p: T -> bool): (r: Option<nat>)
    ensures r.Some? ==> r.value < |s| && p(s[r.value]) && forall j :: 0 <= j < r.value ==> !p(s[j])
    ensures r.None? ==> forall j :: 0 <= j < |s| ==> !p(s[j])
  {
    if s == [] then None
    else if p(s[0]) then Some(0)
    else
      match FirstMatch(s[1..], p)
      case None => None
      case Some(i) => Some(i + 1)
  }

  function EffortWithUuid(efforts: seq<Effort>, u: string): (r: Option<nat>)
  {
    FirstMatch(efforts, (e: Effort) => e.uuid == u)
  }

  function EffortWithKey(efforts: seq<Effort>, k: nat): (r: Option<nat>)
  {
    FirstMatch(efforts, (e: Effort) => e.key == k)
  }

  // ---------------------------------------------------------------------
  // Store invariant

  ghost predicate KeysIncreasing(efforts: seq<Effort>)
  {
    forall i, j :: 0 <= i < j < |efforts| ==> efforts[i].key < efforts[j].key
  }

  ghost predicate UuidsDistinct(efforts: seq<Effort>)
  {
    forall i, j :: 0 <= i < j < |efforts| ==> efforts[i].uuid != efforts[j].uuid
  }

  /** Profile row `k` of aspect `a` is the local profile of some effort. */
  ghost predicate OwnedBy(efforts: seq<Effort>, a: Aspect, k: nat)
  {
    exists i :: 0 <= i < |efforts| && efforts[i].local.Get(a) == Some(k)
  }

  /**
   * For one aspect: row keys are below the next key, every local reference
   * names an existing row, no row is shared by two efforts, every row
   * belongs to some effort, and an inheriting effort has no local profile.
   */
  ghost predicate AspectConsistent(efforts: seq<Effort>, a: Aspect, t: ProfileTable)
  {
    && (forall k :: k in t.rows ==> k < t.nextKey)
    && (forall i :: 0 <= i < |efforts| && efforts[i].local.Get(a).Some? ==> efforts[i].local.Get(a).value in t.rows)
    && (forall i, j :: 0 <= i < j < |efforts| && efforts[i].local.Get(a).Some? ==> efforts[i].local.Get(a) != efforts[j].local.Get(a))
    && (forall k :: k in t.rows ==> OwnedBy(efforts, a, k))
    && (forall i :: 0 <= i < |efforts| && efforts[i].inherit.Get(a) ==> efforts[i].local.Get(a).None?)
  }

  /**
   * The store's integrity: program rows and efforts in storage-key order,
   * effort keys below the next key, distinct effort uuids, one storage
   * shape for every linked-efforts value, and every aspect consistent.
   */
  ghost predicate ValidCatalog(c: Catalog)
  {
    && (forall i, j :: 0 <= i < j < |c.programs| ==> c.programs[i].key < c.programs[j].key)
    && KeysIncreasing(c.efforts)
    && (forall i :: 0 <= i < |c.efforts| ==> c.efforts[i].key < c.nextEffortKey)
    && UuidsDistinct(c.efforts)
    && (forall i :: 0 <= i < |c.efforts| ==> c.efforts[i].links.LinkedEfforts? == c.manyToMany)
    && (forall a :: AspectConsistent(c.efforts, a, c.profiles.Get(a)))
  }

  /** Every aspect's next row key is unused. */
  ghost predicate NextKeysFree(c: Catalog)
  {
    forall a :: c.profiles.Get(a).nextKey !in c.profiles.Get(a).rows
  }

  /** Every local reference of the effort at `i` names a row of its aspect's table. */
  ghost predicate ReferencesResolve(c: Catalog, i: nat)
  {
    i < |c.efforts| && forall a :: c.efforts[i].local.Get(a).Some? ==> c.efforts[i].local.Get(a).value in c.profiles.Get(a).rows
  }

  lemma ValidCatalogReady(c: Catalog, i: nat)
    requires ValidCatalog(c)
    ensures NextKeysFree(c)
    ensures i < |c.efforts| ==> ReferencesResolve(c, i)
  {
    forall a ensures AspectConsistent(c.efforts, a, c.profiles.Get(a)) {
    }
  }

  /** Consistency of an aspect depends only on the efforts' local references and inherit flags. */
  lemma AspectConsistentTransfer(efforts: seq<Effort>, efforts': seq<Effort>, a: Aspect, t: ProfileTable)
    requires AspectConsistent(efforts, a, t) && |efforts'| == |efforts|
    requires forall j :: 0 <= j < |efforts| ==>
      efforts'[j].local.Get(a) == efforts[j].local.Get(a) && efforts'[j].inherit.Get(a) == efforts[j].inherit.Get(a)
    ensures AspectConsistent(efforts', a, t)
  {
    forall k | k in t.rows ensures OwnedBy(efforts', a, k) {
      var i :| 0 <= i < |efforts| && efforts[i].local.Get(a) == Some(k);
      assert efforts'[i].local.Get(a) == Some(k);
    }
  }
}
