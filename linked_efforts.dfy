/**
 * Linked-effort resolution: each raw item of the payload's linked list is
 * turned into an identifier, looked up first as an effort uuid and then,
 * when it is all digits, as an effort storage key. The outcome has two
 * shapes: the resolved efforts (for a many-to-many relation) and one
 * identifier per input position (for a flat identifier list).
 */
module LinkedEfforts {
  import opened Wrappers
  import opened Efforts

  /** A raw linked item: a bare value, or an object carrying an identifier under some key. */
  datatype LinkItem = Plain(v: Scalar) | Object(fields: map<string, Scalar>)

  // ---------------------------------------------------------------------
  // Text conversions

  predicate IsDigitChar(c: char)
  {
    '0' <= c <= '9'
  }

  /** Non-empty and every character an ASCII digit (an approximation of `str.isdigit`). */
  predicate IsDigits(s: string)
  {
    s != [] && forall k :: 0 <= k < |s| ==> IsDigitChar(s[k])
  }

  function DigitChar(d: nat): (c: char)
    requires d < 10
    ensures IsDigitChar(c) && c as int - '0' as int == d
  {
    (d + '0' as int) as char
  }

  /** The value of a digit string, as `int(...)` reads it. */
  function DigitsValue(s: string): nat
    requires forall k :: 0 <= k < |s| ==> IsDigitChar(s[k])
  {
    if s == [] then 0
    else
      assert IsDigitChar(s[|s| - 1]);
      DigitsValue(s[..|s| - 1]) * 10 + (s[|s| - 1] as int - '0' as int)
  }

  /** Decimal text of a natural number, as `str(n)` writes it. */
  function NatText(n: nat): (s: string)
    ensures IsDigits(s)
    ensures s[0] == '0' ==> n == 0 && s == "0"
  {
    if n < 10 then [DigitChar(n)] else NatText(n / 10) + [DigitChar(n % 10)]
  }

  /** Reading back the decimal text of `n` gives `n`. */
  lemma {:induction false} NatTextRoundTrip(n: nat)
    ensures DigitsValue(NatText(n)) == n
  {
    if n >= 10 {
      var s := NatText(n);
      assert s[..|s| - 1] == NatText(n / 10);
      NatTextRoundTrip(n / 10);
    }
  }

  function IntText(n: int): string
  {
    if n < 0 then "-" + NatText(-n) else NatText(n)
  }

  /** `str(v)` for a scalar. */
  function Str(v: Scalar): (s: string)
    ensures Truthy(v) ==> s != ""
    ensures v.Text? ==> s == v.s
  {
    match v
    case Null => "None"
    case Text(t) => t
    case Integer(n) => IntText(n)
    case Flag(b) => if b then "True" else "False"
  }

  /** ASCII whitespace as `str.strip()` sees it (non-ASCII whitespace is not modelled). */
  predicate IsSpace(c: char)
  {
    c == ' ' || ('\t' <= c <= '\r') || ('\U{1C}' <= c <= '\U{1F}')
  }

  function TrimStart(s: string): (r: string)
    ensures |r| <= |s| && r == s[|s| - |r|..]
    ensures forall k :: 0 <= k < |s| - |r| ==> IsSpace(s[k])
    ensures r == [] || !IsSpace(r[0])
  {
    if s != [] && IsSpace(s[0]) then TrimStart(s[1..]) else s
  }

  function TrimEnd(s: string): (r: string)
    ensures |r| <= |s| && r == s[..|r|]
    ensures forall k :: |r| <= k < |s| ==> IsSpace(s[k])
    ensures r == [] || !IsSpace(r[|r| - 1])
  {
    if s != [] && IsSpace(s[|s| - 1]) then TrimEnd(s[..|s| - 1]) else s
  }

  /** `str.strip()`: leading and trailing whitespace removed. */
  function Strip(s: string): string
  {
    TrimEnd(TrimStart(s))
  }

  /** What stripping keeps has no whitespace at either end. */
  lemma StripEnds(s: string)
    ensures var r := Strip(s); r == [] || (!IsSpace(r[0]) && !IsSpace(r[|r| - 1]))
  {
    var t := TrimStart(s);
    var r := TrimEnd(t);
    if r != [] {
      assert r[0] == t[0];
    }
  }

  /** What stripping keeps is the piece of the input that starts right after the leading whitespace. */
  lemma StripProperties(s: string)
    ensures var r := Strip(s); var lo := |s| - |TrimStart(s)|;
      && lo + |r| <= |s|
      && (forall k :: 0 <= k < |r| ==> r[k] == s[lo + k])
  {
    var t := TrimStart(s);
    PrefixOfSuffix(s, t, TrimEnd(t));
  }

  /** Everything stripping drops before the kept piece is whitespace. */
  lemma StripDropsLeadingSpace(s: string)
    ensures var lo := |s| - |TrimStart(s)|; forall k :: 0 <= k < lo ==> IsSpace(s[k])
  {
    var t := TrimStart(s);
    assert forall k :: 0 <= k < |s| - |t| ==> IsSpace(s[k]);
  }

  /** A prefix `r` of a suffix `t` of `s` sits in `s` right where `t` starts. */
  lemma PrefixOfSuffix(s: string, t: string, r: string)
    requires |t| <= |s| && t == s[|s| - |t|..]
    requires |r| <= |t| && r == t[..|r|]
    ensures forall k :: 0 <= k < |r| ==> r[k] == s[|s| - |t| + k]
  {
    forall k | 0 <= k < |r| ensures r[k] == s[|s| - |t| + k] {
      assert r[k] == t[k];
    }
  }

  /** Everything stripping drops after the kept piece is whitespace. */
  lemma StripDropsTrailingSpace(s: string)
    ensures var r := Strip(s); var lo := |s| - |TrimStart(s)|;
      lo + |r| <= |s| && forall k :: lo + |r| <= k < |s| ==> IsSpace(s[k])
  {
    var t := TrimStart(s);
    SpaceAfterPrefix(s, t, TrimEnd(t));
  }

  /** Whitespace after a prefix `r` of a suffix `t` of `s` is whitespace of `s`. */
  lemma SpaceAfterPrefix(s: string, t: string, r: string)
    requires |t| <= |s| && t == s[|s| - |t|..] && |r| <= |t|
    requires forall k :: |r| <= k < |t| ==> IsSpace(t[k])
    ensures forall k :: |s| - |t| + |r| <= k < |s| ==> IsSpace(s[k])
  {
    var lo := |s| - |t|;
    forall k | lo + |r| <= k < |s| ensures IsSpace(s[k]) {
      assert t[k - lo] == s[k];
    }
  }

  /** Stripping twice is stripping once. */
  lemma StripIdempotent(s: string)
    ensures Strip(Strip(s)) == Strip(s)
  {
    var r := Strip(s);
    StripEnds(s);
    assert TrimStart(r) == r;
    assert TrimEnd(r) == r;
  }

  // ---------------------------------------------------------------------
  // Identifier extraction and lookup

  /** The value under `k` when it is present and truthy (`raw_item.get(k)`). */
  predicate HasTruthy(m: map<string, Scalar>, k: string)
  {
    k in m && Truthy(m[k])
  }

  /**
   * The identifier of a raw item: for an object, the text of the first
   * truthy value among "uuid", "id" and "pk" (none when all three are
   * absent or falsy); for anything else, its text with whitespace stripped.
   */
  function ExtractIdentifier(item: LinkItem): (id: Option<string>)
    ensures item.Object? ==>
      (id.Some? <==> HasTruthy(item.fields, "uuid") || HasTruthy(item.fields, "id") || HasTruthy(item.fields, "pk"))
    ensures item.Object? && id.Some? ==> id.value != ""
    ensures item.Object? && HasTruthy(item.fields, "uuid") ==> id == Some(Str(item.fields["uuid"]))
    ensures item.Object? && !HasTruthy(item.fields, "uuid") && HasTruthy(item.fields, "id") ==> id == Some(Str(item.fields["id"]))
    ensures item.Object? && !HasTruthy(item.fields, "uuid") && !HasTruthy(item.fields, "id") && HasTruthy(item.fields, "pk") ==>
      id == Some(Str(item.fields["pk"]))
    ensures item.Plain? ==> id == Some(Strip(Str(item.v)))
    ensures item.Plain? ==> id.value == [] || (!IsSpace(id.value[0]) && !IsSpace(id.value[|id.value| - 1]))
  {
    match item
    case Object(m) =>
      if HasTruthy(m, "uuid") then Some(Str(m["uuid"]))
      else if HasTruthy(m, "id") then Some(Str(m["id"]))
      else if HasTruthy(m, "pk") then Some(Str(m["pk"]))
      else None
    case Plain(v) =>
      StripEnds(Str(v));
      Some(Strip(Str(v)))
  }

  /**
   * The position of the effort an identifier names: none for a missing or
   * empty identifier; otherwise the first effort with that uuid, failing
   * which, for an all-digit identifier, the first effort with that key.
   */
  function ResolveIdentifier(efforts: seq<Effort>, id: Option<string>): (r: Option<nat>)
    ensures r.Some? ==> r.value < |efforts| && TruthyText(id)
    ensures r.Some? ==>
      efforts[r.value].uuid == id.value
      || (EffortWithUuid(efforts, id.value).None? && IsDigits(id.value) && efforts[r.value].key == DigitsValue(id.value))
    ensures r.None? <==>
      !TruthyText(id)
      || ((forall j :: 0 <= j < |efforts| ==> efforts[j].uuid != id.value)
          && (!IsDigits(id.value) || forall j :: 0 <= j < |efforts| ==> efforts[j].key != DigitsValue(id.value)))
  {
    if !TruthyText(id) then None
    else match EffortWithUuid(efforts, id.value)
      case Some(i) => Some(i)
      case None => if IsDigits(id.value) then EffortWithKey(efforts, DigitsValue(id.value)) else None
  }

  /** The storage key of the effort a raw item resolves to. */
  function ResolvedKey(efforts: seq<Effort>, item: LinkItem): Option<nat>
  {
    match ResolveIdentifier(efforts, ExtractIdentifier(item))
    case Some(i) => Some(efforts[i].key)
    case None => None
  }

  /** What the flat list stores for a raw item: the resolved effort's uuid, or the identifier as extracted. */
  function StoredId(efforts: seq<Effort>, item: LinkItem): Option<string>
  {
    match ResolveIdentifier(efforts, ExtractIdentifier(item))
    case Some(i) => Some(efforts[i].uuid)
    case None => ExtractIdentifier(item)
  }

  /** The two accumulated lists: resolved effort keys, and one identifier per input position. */
  datatype Resolution = Resolution(targets: seq<nat>, ids: seq<Option<string>>)

  /**
   * Resolution of a whole list. The identifier list keeps every input
   * position, holding the resolved effort's uuid or the raw identifier.
   */
  function ResolveLinks(efforts: seq<Effort>, raw: seq<LinkItem>): (r: Resolution)
    ensures |r.ids| == |raw| && |r.targets| <= |raw|
    ensures forall p :: 0 <= p < |raw| ==> r.ids[p] == StoredId(efforts, raw[p])
  {
    if raw == [] then Resolution([], [])
    else
      var prev := ResolveLinks(efforts, raw[..|raw| - 1]);
      var key := ResolvedKey(efforts, raw[|raw| - 1]);
      IdsSnoc(efforts, raw, prev.ids);
      Resolution(if key.Some? then prev.targets + [key.value] else prev.targets, prev.ids + [StoredId(efforts, raw[|raw| - 1])])
  }

  /** Appending the last item's stored identifier extends a per-position identifier list by one position. */
  lemma IdsSnoc(efforts: seq<Effort>, raw: seq<LinkItem>, ids: seq<Option<string>>)
    requires raw != [] && |ids| == |raw| - 1
    requires forall p :: 0 <= p < |ids| ==> ids[p] == StoredId(efforts, raw[..|raw| - 1][p])
    ensures var ids' := ids + [StoredId(efforts, raw[|raw| - 1])];
      forall p :: 0 <= p < |raw| ==> ids'[p] == StoredId(efforts, raw[p])
  {
    var ids' := ids + [StoredId(efforts, raw[|raw| - 1])];
    forall p | 0 <= p < |raw| ensures ids'[p] == StoredId(efforts, raw[p]) {
      if p < |ids| {
        assert ids'[p] == ids[p];
        assert raw[..|raw| - 1][p] == raw[p];
      } else {
        assert ids'[p] == StoredId(efforts, raw[|raw| - 1]);
      }
    }
  }

  /** Some raw item resolves to the effort with key `k`. */
  ghost predicate SomeItemResolvesTo(efforts: seq<Effort>, raw: seq<LinkItem>, k: nat)
  {
    exists p :: 0 <= p < |raw| && ResolvedKey(efforts, raw[p]) == Some(k)
  }

  /** The targets are exactly the keys of the efforts the items resolve to: unresolved items are dropped. */
  lemma {:induction false} ResolveLinksTargets(efforts: seq<Effort>, raw: seq<LinkItem>)
    ensures forall k :: k in ResolveLinks(efforts, raw).targets <==> SomeItemResolvesTo(efforts, raw, k)
  {
    if raw != [] {
      var init := raw[..|raw| - 1];
      var last := raw[|raw| - 1];
      ResolveLinksTargets(efforts, init);
      var prev := ResolveLinks(efforts, init).targets;
      var extra := if ResolvedKey(efforts, last).Some? then [ResolvedKey(efforts, last).value] else [];
      assert ResolveLinks(efforts, raw).targets == prev + extra;
      forall k ensures k in prev + extra <==> SomeItemResolvesTo(efforts, raw, k) {
        TargetStep(efforts, raw, k);
      }
    }
  }

  lemma TargetStep(efforts: seq<Effort>, raw: seq<LinkItem>, k: nat)
    requires raw != []
    ensures SomeItemResolvesTo(efforts, raw, k) <==>
      SomeItemResolvesTo(efforts, raw[..|raw| - 1], k) || ResolvedKey(efforts, raw[|raw| - 1]) == Some(k)
  {
    SomeSnoc(raw, (item: LinkItem) => ResolvedKey(efforts, item) == Some(k));
  }

  lemma SomeSnoc<T>(s: seq<T>, P: T -> bool)
    requires s != []
    ensures var init := s[..|s| - 1];
      (exists p :: 0 <= p < |s| && P(s[p])) <==> (exists p :: 0 <= p < |init| && P(init[p])) || P(s[|s| - 1])
  {
    var init := s[..|s| - 1];
    if exists p :: 0 <= p < |init| && P(init[p]) {
      var p :| 0 <= p < |init| && P(init[p]);
      assert s[p] == init[p];
    }
    if exists p :: 0 <= p < |s| && P(s[p]) {
      var p :| 0 <= p < |s| && P(s[p]);
      if p < |init| {
        assert init[p] == s[p];
      }
    }
  }

  /** An unresolved item keeps its own identifier in the flat list and adds nothing to the targets. */
  lemma UnresolvedPassesThrough(efforts: seq<Effort>, raw: seq<LinkItem>, p: nat)
    requires p < |raw| && ResolvedKey(efforts, raw[p]).None?
    ensures ResolveLinks(efforts, raw).ids[p] == ExtractIdentifier(raw[p])
  {
  }

  /**
   * The accumulating loop over the raw items: each item is resolved, its
   * key appended to the targets when found, and its stored identifier
   * appended to the list.
   */
  method ResolveLinkedItems(efforts: seq<Effort>, raw: seq<LinkItem>) returns (targets: seq<nat>, ids: seq<Option<string>>)
    ensures Resolution(targets, ids) == ResolveLinks(efforts, raw)
  {
    targets, ids := [], [];
    for n := 0 to |raw|
      invariant Resolution(targets, ids) == ResolveLinks(efforts, raw[..n])
    {
      assert raw[..n + 1][..n] == raw[..n];
      var identifier := ExtractIdentifier(raw[n]);
      var target := ResolveIdentifier(efforts, identifier);
      if target.Some? {
        targets := targets + [efforts[target.value].key];
        ids := ids + [Some(efforts[target.value].uuid)];
      } else {
        ids := ids + [identifier];
      }
    }
    assert raw[..|raw|] == raw;
  }

  /** Resolution only looks at the efforts' uuids and keys. */
  lemma ResolveLinksSameIdentities(efforts: seq<Effort>, efforts': seq<Effort>, raw: seq<LinkItem>)
    requires |efforts| == |efforts'|
    requires forall j :: 0 <= j < |efforts| ==> efforts'[j].uuid == efforts[j].uuid && efforts'[j].key == efforts[j].key
    ensures ResolveLinks(efforts', raw) == ResolveLinks(efforts, raw)
  {
    forall id: Option<string> ensures ResolveIdentifier(efforts', id) == ResolveIdentifier(efforts, id) {
      if TruthyText(id) {
        SameIdentitiesLookups(efforts, efforts', id.value);
      }
    }
    SameResolution(efforts, efforts', raw);
  }

  lemma SameIdentitiesLookups(efforts: seq<Effort>, efforts': seq<Effort>, u: string)
    requires |efforts| == |efforts'|
    requires forall j :: 0 <= j < |efforts| ==> efforts'[j].uuid == efforts[j].uuid && efforts'[j].key == efforts[j].key
    ensures EffortWithUuid(efforts', u) == EffortWithUuid(efforts, u)
    ensures IsDigits(u) ==> EffortWithKey(efforts', DigitsValue(u)) == EffortWithKey(efforts, DigitsValue(u))
  {
    FirstMatchSame(efforts, efforts', (e: Effort) => e.uuid == u);
    if IsDigits(u) {
      FirstMatchSame(efforts, efforts', (e: Effort) => e.key == DigitsValue(u));
    }
  }

  lemma FirstMatchSame(s: seq<Effort>, s': seq<Effort>, p: Effort -> bool)
    requires |s| == |s'| && forall j :: 0 <= j < |s| ==> p(s'[j]) == p(s[j])
    ensures FirstMatch(s', p) == FirstMatch(s, p)
  {
  }

  lemma {:induction false} SameResolution(efforts: seq<Effort>, efforts': seq<Effort>, raw: seq<LinkItem>)
    requires |efforts| == |efforts'|
    requires forall j :: 0 <= j < |efforts| ==> efforts'[j].uuid == efforts[j].uuid && efforts'[j].key == efforts[j].key
    requires forall id: Option<string> :: ResolveIdentifier(efforts', id) == ResolveIdentifier(efforts, id)
    ensures ResolveLinks(efforts', raw) == ResolveLinks(efforts, raw)
  {
    if raw != [] {
      SameResolution(efforts, efforts', raw[..|raw| - 1]);
    }
  }
}
