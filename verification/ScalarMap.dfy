/** Resolution of the variables of one block by repeated in-place passes, and the recursive meaning it computes.
    A raw value is given as the parts that expansion sees: literal text and references. */
module ScalarMap {
  import opened Common

  datatype Part = Lit(text: string) | Ref(name: string)

  type Raw = seq<Part>

  /** A value node of the block: a scalar, an alias of another node, or anything else. */
  datatype ValueNode = Scalar(raw: Raw) | Alias(target: ValueNode) | Aggregate

  /** A key that is not a scalar is `None`. */
  datatype Entry = Entry(key: Option<string>, value: ValueNode)

  /** What earlier loads left for `name`. */
  function Mapping(vars: map<string, string>, name: string): string {
    if name in vars then vars[name] else ""
  }

  function Lookup(resolved: map<string, string>, vars: map<string, string>, name: string): string {
    if name in resolved then resolved[name] else Mapping(vars, name)
  }

  /** A reference without a value is left as it is. */
  function Shown(name: string, value: string): (s: string)
    ensures s != ""
  {
    if value == "" then "${" + name + "}" else value
  }

  function ExpandVars(raw: Raw, resolved: map<string, string>, vars: map<string, string>): string {
    if raw == [] then ""
    else
      (match raw[0]
       case Lit(text) => text
       case Ref(name) => Shown(name, Lookup(resolved, vars, name)))
      + ExpandVars(raw[1..], resolved, vars)
  }

  /** The text of a raw value itself, with its references in braces. */
  function SourceText(raw: Raw): string {
    if raw == [] then ""
    else (if raw[0].Lit? then raw[0].text else "${" + raw[0].name + "}") + SourceText(raw[1..])
  }

  /** References without a value are left as they are, and all else is the text. */
  lemma {:induction false} UnresolvedIsUntouched(raw: Raw, resolved: map<string, string>, vars: map<string, string>)
    requires forall name | Ref(name) in raw :: Lookup(resolved, vars, name) == ""
    ensures ExpandVars(raw, resolved, vars) == SourceText(raw)
  {
    if raw != [] {
      assert forall p | p in raw[1..] :: p in raw;
      UnresolvedIsUntouched(raw[1..], resolved, vars);
      if raw[0].Ref? {
        assert Ref(raw[0].name) in raw;
      }
    }
  }

  /** A reference with a value stands for that value, whatever surrounds it. */
  lemma {:induction false} ReferenceIsReplaced(raw: Raw, resolved: map<string, string>, vars: map<string, string>, i: nat)
    requires i < |raw| && raw[i].Ref? && Lookup(resolved, vars, raw[i].name) != ""
    ensures ExpandVars(raw, resolved, vars) == ExpandVars(raw[i := Lit(Lookup(resolved, vars, raw[i].name))], resolved, vars)
  {
    var value := Lit(Lookup(resolved, vars, raw[i].name));
    if i == 0 {
      assert raw[0 := value][1..] == raw[1..];
    } else {
      ReferenceIsReplaced(raw[1..], resolved, vars, i - 1);
      assert raw[i := value][1..] == raw[1..][i - 1 := value];
    }
  }

  ghost predicate Blank(raw: Raw) {
    forall i | 0 <= i < |raw| :: raw[i] == Lit("")
  }

  lemma {:induction false} EmptyIffBlank(raw: Raw, resolved: map<string, string>, vars: map<string, string>)
    ensures ExpandVars(raw, resolved, vars) == "" <==> Blank(raw)
  {
    if raw != [] {
      EmptyIffBlank(raw[1..], resolved, vars);
      if Blank(raw[1..]) && raw[0] == Lit("") {
        forall i | 0 <= i < |raw|
          ensures raw[i] == Lit("")
        {
          assert i > 0 ==> raw[i] == raw[1..][i - 1];
        }
      }
    }
  }

  // ---------- the recursive meaning ----------

  /** `k` refers to the definition that the block has for `r`. */
  ghost predicate Refers(raw: map<string, Raw>, k: string, r: string) {
    k in raw && r in raw && Ref(r) in raw[k] && !Blank(raw[r])
  }

  /** The keys whose references, followed within the block, end after fewer than `depth` steps. */
  ghost function Settled(raw: map<string, Raw>, depth: nat): (keys: set<string>)
    ensures keys <= raw.Keys
  {
    if depth == 0 then {}
    else set k | k in raw && forall r | Refers(raw, k, r) :: r in Settled(raw, depth - 1)
  }

  /** The text of `key` with every reference to a definition of the block replaced by that definition's own text,
      and every other reference by what earlier loads say. */
  ghost function Meaning(raw: map<string, Raw>, vars: map<string, string>, depth: nat, key: string): string
    requires key in Settled(raw, depth)
    decreases depth, |raw[key]| + 1
  {
    MeaningOfParts(raw, vars, depth, key, raw[key])
  }

  ghost function MeaningOfParts(raw: map<string, Raw>, vars: map<string, string>, depth: nat, key: string, parts: Raw): string
    requires key in Settled(raw, depth) && (forall p | p in parts :: p in raw[key])
    decreases depth, |parts|
  {
    if parts == [] then ""
    else
      (match parts[0]
       case Lit(text) => text
       case Ref(r) => ReferenceText(raw, vars, depth, key, r))
      + MeaningOfParts(raw, vars, depth, key, parts[1..])
  }

  ghost function ReferenceText(raw: map<string, Raw>, vars: map<string, string>, depth: nat, key: string, r: string): string
    requires key in Settled(raw, depth)
    decreases depth, 0
  {
    Shown(r, if Refers(raw, key, r) then Meaning(raw, vars, depth - 1, r) else Mapping(vars, r))
  }

  lemma {:induction false} SettledGrows(raw: map<string, Raw>, depth: nat)
    ensures Settled(raw, depth) <= Settled(raw, depth + 1)
  {
    if depth > 0 {
      SettledGrows(raw, depth - 1);
    }
  }

  lemma {:induction false} MeaningIgnoresDepth(raw: map<string, Raw>, vars: map<string, string>, depth: nat, key: string)
    requires key in Settled(raw, depth)
    ensures key in Settled(raw, depth + 1)
    ensures Meaning(raw, vars, depth + 1, key) == Meaning(raw, vars, depth, key)
  {
    SettledGrows(raw, depth);
    forall r | Refers(raw, key, r)
      ensures r in Settled(raw, depth - 1) && r in Settled(raw, depth)
      ensures Meaning(raw, vars, depth, r) == Meaning(raw, vars, depth - 1, r)
    {
      MeaningIgnoresDepth(raw, vars, depth - 1, r);
    }
    PartsIgnoreDepth(raw, vars, depth, key, raw[key]);
  }

  lemma SameTextDeeper(raw: map<string, Raw>, vars: map<string, string>, depth: nat, key: string, r: string)
    requires key in Settled(raw, depth) && key in Settled(raw, depth + 1)
    requires Refers(raw, key, r) ==>
               && r in Settled(raw, depth - 1) && r in Settled(raw, depth)
               && Meaning(raw, vars, depth, r) == Meaning(raw, vars, depth - 1, r)
    ensures ReferenceText(raw, vars, depth + 1, key, r) == ReferenceText(raw, vars, depth, key, r)
  {
    hide Settled, Refers, Meaning;
  }

  lemma {:induction false} PartsIgnoreDepth(raw: map<string, Raw>, vars: map<string, string>, depth: nat, key: string, parts: Raw)
    requires key in Settled(raw, depth) && key in Settled(raw, depth + 1) && (forall p | p in parts :: p in raw[key])
    requires forall r | Refers(raw, key, r) ::
               && r in Settled(raw, depth - 1) && r in Settled(raw, depth)
               && Meaning(raw, vars, depth, r) == Meaning(raw, vars, depth - 1, r)
    ensures MeaningOfParts(raw, vars, depth + 1, key, parts) == MeaningOfParts(raw, vars, depth, key, parts)
  {
    hide Settled, Refers, Meaning, ReferenceText;
    if parts != [] {
      if parts[0].Ref? {
        SameTextDeeper(raw, vars, depth, key, parts[0].name);
      }
      assert forall p | p in parts[1..] :: p in parts;
      PartsIgnoreDepth(raw, vars, depth, key, parts[1..]);
    }
  }

  // ---------- acyclic blocks ----------

  /** Every reference leads to a definition of smaller rank. */
  ghost predicate Ranked(raw: map<string, Raw>, rank: map<string, nat>) {
    && raw.Keys <= rank.Keys
    && forall k, r | Refers(raw, k, r) :: rank[r] < rank[k]
  }

  ghost predicate Acyclic(raw: map<string, Raw>) {
    exists rank :: Ranked(raw, rank)
  }

  lemma {:induction false} SettledCount(raw: map<string, Raw>, depth: nat)
    ensures |Settled(raw, depth)| >= depth || Settled(raw, depth) == Settled(raw, depth + 1)
  {
    if depth > 0 {
      SettledCount(raw, depth - 1);
      SettledGrows(raw, depth - 1);
      if Settled(raw, depth - 1) != Settled(raw, depth) {
        SubsetCardinality(Settled(raw, depth - 1), Settled(raw, depth));
      }
    }
  }

  lemma {:induction false} SubsetCardinality<T>(a: set<T>, b: set<T>)
    requires a <= b
    ensures |a| <= |b| && (|a| == |b| ==> a == b)
  {
    if x :| x in a {
      SubsetCardinality(a - {x}, b - {x});
      assert a == a - {x} + {x} && b == b - {x} + {x};
    } else {
      assert a == {};
    }
  }

  /** As many steps as there are definitions settle all that can be settled. */
  lemma SettledIsStable(raw: map<string, Raw>)
    ensures Settled(raw, |raw| + 1) == Settled(raw, |raw|)
  {
    SettledCount(raw, |raw|);
    SettledGrows(raw, |raw|);
    SubsetCardinality(Settled(raw, |raw|), raw.Keys);
    assert |raw.Keys| == |raw|;
  }

  lemma {:induction false} SettledUpTo(raw: map<string, Raw>, d: nat, depth: nat)
    requires d <= depth
    ensures Settled(raw, d) <= Settled(raw, depth)
    decreases depth
  {
    if d < depth {
      SettledUpTo(raw, d, depth - 1);
      SettledGrows(raw, depth - 1);
    }
  }

  lemma {:induction false} SettledByThen(raw: map<string, Raw>, depth: nat)
    ensures Settled(raw, depth) <= Settled(raw, |raw|)
  {
    if depth <= |raw| {
      SettledUpTo(raw, depth, |raw|);
    } else {
      hide Settled;
      SettledByThen(raw, depth - 1);
      SettledStep(raw, depth - 1, |raw|);
      SettledIsStable(raw);
    }
  }

  lemma SettledStep(raw: map<string, Raw>, d: nat, e: nat)
    requires Settled(raw, d) <= Settled(raw, e)
    ensures Settled(raw, d + 1) <= Settled(raw, e + 1)
  {
  }

  lemma ReferenceIsSettled(raw: map<string, Raw>, depth: nat, k: string, r: string)
    requires k in Settled(raw, depth) && Refers(raw, k, r)
    ensures depth > 0 && r in Settled(raw, depth - 1)
  {
  }

  lemma {:induction false} RankedIsSettled(raw: map<string, Raw>, rank: map<string, nat>, k: string)
    requires Ranked(raw, rank) && k in raw
    ensures k in Settled(raw, rank[k] + 1)
    decreases rank[k]
  {
    forall r | Refers(raw, k, r)
      ensures r in Settled(raw, rank[k])
    {
      RankedIsSettled(raw, rank, r);
      SettledUpTo(raw, rank[r] + 1, rank[k]);
    }
  }

  /** The depth at which `k` is first settled. */
  ghost function FirstDepth(raw: map<string, Raw>, depth: nat, k: string): (d: nat)
    requires k in Settled(raw, depth)
    ensures 0 < d <= depth && k in Settled(raw, d) && k !in Settled(raw, d - 1)
  {
    if k in Settled(raw, depth - 1) then FirstDepth(raw, depth - 1, k) else depth
  }

  lemma SettledIsRanked(raw: map<string, Raw>, rank: map<string, nat>)
    requires rank.Keys == raw.Keys == Settled(raw, |raw|)
    requires forall k | k in raw :: rank[k] == FirstDepth(raw, |raw|, k)
    ensures Ranked(raw, rank)
  {
    forall k, r | Refers(raw, k, r)
      ensures rank[r] < rank[k]
    {
      hide Settled, Blank;
      ReferenceIsSettled(raw, rank[k], k, r);
      if rank[k] - 1 < rank[r] {
        SettledUpTo(raw, rank[k] - 1, rank[r] - 1);
      }
    }
  }

  /** Nothing refers to itself through others if and only if every definition has a recursive meaning. */
  lemma AcyclicIffSettled(raw: map<string, Raw>)
    ensures Acyclic(raw) <==> Settled(raw, |raw|) == raw.Keys
  {
    if Acyclic(raw) {
      var rank :| Ranked(raw, rank);
      forall k | k in raw
        ensures k in Settled(raw, |raw|)
      {
        RankedIsSettled(raw, rank, k);
        SettledByThen(raw, rank[k] + 1);
      }
    }
    if Settled(raw, |raw|) == raw.Keys {
      var rank := map k | k in raw :: FirstDepth(raw, |raw|, k);
      SettledIsRanked(raw, rank);
    }
  }

  // ---------- the passes ----------

  /** Only definitions that are not blank are ever entered. */
  ghost predicate Known(raw: map<string, Raw>, resolved: map<string, string>) {
    forall k | k in resolved :: k in raw && !Blank(raw[k])
  }

  /** Every key settled at `depth` has its meaning. */
  ghost predicate Final(raw: map<string, Raw>, vars: map<string, string>, resolved: map<string, string>, depth: nat) {
    forall k | k in Settled(raw, depth) :: Mapping(resolved, k) == Meaning(raw, vars, depth, k)
  }

  lemma {:induction false} MeaningNotEmpty(raw: map<string, Raw>, vars: map<string, string>, depth: nat, key: string, parts: Raw)
    requires key in Settled(raw, depth) && (forall p | p in parts :: p in raw[key])
    requires !Blank(parts)
    ensures MeaningOfParts(raw, vars, depth, key, parts) != ""
  {
    if parts[0] == Lit("") {
      assert exists i :: 0 <= i < |parts| && parts[i] != Lit("");
      var i :| 0 <= i < |parts| && parts[i] != Lit("");
      assert parts[1..][i - 1] != Lit("");
      MeaningNotEmpty(raw, vars, depth, key, parts[1..]);
    }
  }

  lemma {:induction false} ExpandIsMeaning(raw: map<string, Raw>, vars: map<string, string>, resolved: map<string, string>,
                                           depth: nat, key: string, parts: Raw)
    requires Known(raw, resolved) && Final(raw, vars, resolved, depth)
    requires key in Settled(raw, depth + 1) && (forall p | p in parts :: p in raw[key])
    ensures ExpandVars(parts, resolved, vars) == MeaningOfParts(raw, vars, depth + 1, key, parts)
  {
    hide Blank;
    if parts != [] {
      ExpandIsMeaning(raw, vars, resolved, depth, key, parts[1..]);
      if parts[0].Ref? {
        var r := parts[0].name;
        assert Ref(r) in raw[key];
        if Refers(raw, key, r) {
          MeaningNotEmpty(raw, vars, depth, r, raw[r]);
        }
      }
    }
  }

  /** What a pass without changes leaves. */
  ghost predicate Fixpoint(raw: map<string, Raw>, vars: map<string, string>, resolved: map<string, string>) {
    forall k | k in raw :: ExpandVars(raw[k], resolved, vars) == Mapping(resolved, k)
  }

  lemma {:induction false} FixpointIsFinal(raw: map<string, Raw>, vars: map<string, string>, resolved: map<string, string>, depth: nat)
    requires Known(raw, resolved) && Fixpoint(raw, vars, resolved)
    ensures Final(raw, vars, resolved, depth)
  {
    hide Settled, Known, Meaning, ExpandVars;
    if depth == 0 {
      NothingFinal(raw, vars, resolved);
    } else {
      FixpointIsFinal(raw, vars, resolved, depth - 1);
      forall k | k in Settled(raw, depth)
        ensures Mapping(resolved, k) == Meaning(raw, vars, depth, k)
      {
        ExpandIsMeaning(raw, vars, resolved, depth - 1, k, raw[k]);
        MeaningIs(raw, vars, depth, k);
      }
    }
  }

  lemma NothingFinal(raw: map<string, Raw>, vars: map<string, string>, resolved: map<string, string>)
    ensures Final(raw, vars, resolved, 0)
  {
  }

  lemma MeaningIs(raw: map<string, Raw>, vars: map<string, string>, depth: nat, key: string)
    requires key in Settled(raw, depth)
    ensures Meaning(raw, vars, depth, key) == MeaningOfParts(raw, vars, depth, key, raw[key])
  {
  }

  /** In an acyclic block the meanings, and nothing else, are left alone by a further pass. */
  lemma FixpointIffFinal(raw: map<string, Raw>, vars: map<string, string>, resolved: map<string, string>)
    requires Acyclic(raw) && Known(raw, resolved)
    ensures Fixpoint(raw, vars, resolved) <==> Final(raw, vars, resolved, |raw|)
  {
    AcyclicIffSettled(raw);
    if Fixpoint(raw, vars, resolved) {
      FixpointIsFinal(raw, vars, resolved, |raw|);
    }
    if Final(raw, vars, resolved, |raw|) {
      forall k | k in raw
        ensures ExpandVars(raw[k], resolved, vars) == Mapping(resolved, k)
      {
        MeaningIgnoresDepth(raw, vars, |raw|, k);
        ExpandIsMeaning(raw, vars, resolved, |raw|, k, raw[k]);
      }
    }
  }

  /** One pass over the keys in order; every value sees the changes before it. */
  method Pass(keys: seq<string>, raw: map<string, Raw>, vars: map<string, string>, before: map<string, string>, ghost depth: nat)
    returns (resolved: map<string, string>, changed: bool)
    requires (set k | k in keys) == raw.Keys
    requires Known(raw, before) && Final(raw, vars, before, depth)
    ensures Known(raw, resolved) && Final(raw, vars, resolved, depth + 1)
    ensures !changed ==> resolved == before && Fixpoint(raw, vars, resolved)
  {
    hide Settled, Meaning, Blank, ExpandVars;
    resolved, changed := before, false;
    for i := 0 to |keys|
      invariant Known(raw, resolved) && Final(raw, vars, resolved, depth)
      invariant forall j | 0 <= j < i && keys[j] in Settled(raw, depth + 1) ::
                  Mapping(resolved, keys[j]) == Meaning(raw, vars, depth + 1, keys[j])
      invariant !changed ==> resolved == before && forall j | 0 <= j < i :: ExpandVars(raw[keys[j]], resolved, vars) == Mapping(resolved, keys[j])
    {
      var key := keys[i];
      assert key in raw;
      var next := ExpandVars(raw[key], resolved, vars);
      EmptyIffBlank(raw[key], resolved, vars);
      if key in Settled(raw, depth + 1) {
        ExpandIsMeaning(raw, vars, resolved, depth, key, raw[key]);
        MeaningIs(raw, vars, depth + 1, key);
      }
      if key in Settled(raw, depth) {
        MeaningIgnoresDepth(raw, vars, depth, key);
      }
      if next != Mapping(resolved, key) {
        resolved := resolved[key := next];
        changed := true;
      }
    }
  }

  /** An alias stands for the node it names, one level deep. */
  function ScalarOf(v: ValueNode): Option<Raw> {
    match v
    case Scalar(raw) => Some(raw)
    case Alias(target) => if target.Scalar? then Some(target.raw) else None
    case Aggregate => None
  }

  /** The definitions of a block: the last scalar given for each scalar key. */
  ghost predicate Defines(content: seq<Entry>, raw: map<string, Raw>) {
    && (forall key | key in raw :: exists i :: DefinedAt(content, key, i) && ScalarOf(content[i].value) == Some(raw[key]))
    && (forall i, key | DefinedAt(content, key, i) :: key in raw)
  }

  /** Entry `i` is the last that gives `key` a scalar. */
  ghost predicate DefinedAt(content: seq<Entry>, key: string, i: int) {
    && GivenAt(content, key, i)
    && forall j | GivenAt(content, key, j) :: j <= i
  }

  ghost predicate GivenAt(content: seq<Entry>, key: string, i: int) {
    0 <= i < |content| && content[i].key == Some(key) && ScalarOf(content[i].value).Some?
  }

  ghost predicate DistinctKeys(content: seq<Entry>) {
    forall key, i, j | GivenAt(content, key, i) && GivenAt(content, key, j) :: i == j
  }

  /** Blocks with the same entries, no key given twice, define the same values. */
  lemma SameDefinitions(content: seq<Entry>, other: seq<Entry>, raw: map<string, Raw>)
    requires DistinctKeys(content) && DistinctKeys(other)
    requires forall e :: e in content <==> e in other
    requires Defines(content, raw)
    ensures Defines(other, raw)
  {
    hide ScalarOf;
    forall key | key in raw
      ensures exists i :: DefinedAt(other, key, i) && ScalarOf(other[i].value) == Some(raw[key])
    {
      var i :| DefinedAt(content, key, i) && ScalarOf(content[i].value) == Some(raw[key]);
      assert content[i] in other;
      var j :| 0 <= j < |other| && other[j] == content[i];
      assert GivenAt(other, key, j);
      assert DefinedAt(other, key, j);
    }
    forall i, key | DefinedAt(other, key, i)
      ensures key in raw
    {
      assert other[i] in content;
      var j :| 0 <= j < |content| && content[j] == other[i];
      assert GivenAt(content, key, j);
      assert DefinedAt(content, key, j);
    }
  }

  /** A block defines one value for each key. */
  lemma DefinesOne(content: seq<Entry>, raw: map<string, Raw>, other: map<string, Raw>)
    requires Defines(content, raw) && Defines(content, other)
    ensures raw == other
  {
    hide ScalarOf;
    forall key | key in raw || key in other
      ensures key in raw && key in other && raw[key] == other[key]
    {
      var i :| DefinedAt(content, key, i);
      assert key in raw && key in other;
      var m :| DefinedAt(content, key, m) && ScalarOf(content[m].value) == Some(raw[key]);
      var n :| DefinedAt(content, key, n) && ScalarOf(content[n].value) == Some(other[key]);
      assert GivenAt(content, key, m) && GivenAt(content, key, n);
    }
  }

  /** The keys whose value is not a scalar, in order. */
  function Rejected(content: seq<Entry>): seq<string> {
    if content == [] then []
    else
      var e := content[|content| - 1];
      Rejected(content[..|content| - 1]) + if e.key.Some? && ScalarOf(e.value).None? then [e.key.value] else []
  }

  lemma DefinedAtNext(content: seq<Entry>, n: nat, key: string, i: int)
    requires n < |content|
    ensures DefinedAt(content[..n + 1], key, i) <==>
              if GivenAt(content[..n + 1], key, n) then i == n else DefinedAt(content[..n], key, i)
  {
    hide ScalarOf;
    var was, now := content[..n], content[..n + 1];
    assert forall j | 0 <= j < n :: now[j] == was[j];
    assert forall j | j < n :: GivenAt(was, key, j) <==> GivenAt(now, key, j);
  }

  lemma DefinesNext(content: seq<Entry>, n: nat, raw: map<string, Raw>, after: map<string, Raw>)
    requires n < |content| && Defines(content[..n], raw)
    requires after == if content[n].key.Some? && ScalarOf(content[n].value).Some?
                      then raw[content[n].key.value := ScalarOf(content[n].value).value] else raw
    ensures Defines(content[..n + 1], after)
  {
    hide ScalarOf;
    var was, now := content[..n], content[..n + 1];
    forall key | key in after
      ensures exists i :: DefinedAt(now, key, i) && ScalarOf(now[i].value) == Some(after[key])
    {
      if GivenAt(now, key, n) {
        DefinedAtNext(content, n, key, n);
      } else {
        var i :| DefinedAt(was, key, i) && ScalarOf(was[i].value) == Some(raw[key]);
        DefinedAtNext(content, n, key, i);
      }
    }
    forall i, key | DefinedAt(now, key, i)
      ensures key in after
    {
      DefinedAtNext(content, n, key, i);
    }
  }

  // ---------- the shapes of nodes ----------

  /** The entry gives `key` the value `r`, as a scalar or through an alias. */
  ghost predicate Gives(e: Entry, key: string, r: Raw) {
    e.key == Some(key) && (e.value == Scalar(r) || e.value == Alias(Scalar(r)))
  }

  ghost predicate GivesLast(content: seq<Entry>, i: int, key: string, r: Raw) {
    && 0 <= i < |content| && Gives(content[i], key, r)
    && forall j, q | i < j < |content| :: !Gives(content[j], key, q)
  }

  lemma GivesIff(e: Entry, key: string)
    ensures e.key == Some(key) && ScalarOf(e.value).Some? <==> exists r :: Gives(e, key, r)
    ensures forall r :: Gives(e, key, r) <==> e.key == Some(key) && ScalarOf(e.value) == Some(r)
  {
    if e.key == Some(key) && ScalarOf(e.value).Some? {
      assert Gives(e, key, ScalarOf(e.value).value);
    }
  }

  lemma LastGivenIff(content: seq<Entry>, i: int, key: string, r: Raw)
    ensures GivesLast(content, i, key, r) <==> DefinedAt(content, key, i) && ScalarOf(content[i].value) == Some(r)
  {
    hide ScalarOf;
    forall j | 0 <= j < |content|
      ensures GivenAt(content, key, j) <==> exists q :: Gives(content[j], key, q)
      ensures forall q :: Gives(content[j], key, q) <==> content[j].key == Some(key) && ScalarOf(content[j].value) == Some(q)
    {
      GivesIff(content[j], key);
    }
  }

  /** A block defines `key` as `r` if and only if the last entry that gives the key a scalar, or an alias of one,
      gives it `r`. */
  lemma DefinedIff(content: seq<Entry>, raw: map<string, Raw>, key: string, r: Raw)
    requires Defines(content, raw)
    ensures key in raw && raw[key] == r <==> exists i :: GivesLast(content, i, key, r)
  {
    hide ScalarOf, GivesLast;
    forall i
      ensures GivesLast(content, i, key, r) <==> DefinedAt(content, key, i) && ScalarOf(content[i].value) == Some(r)
    {
      LastGivenIff(content, i, key, r);
    }
    if i :| GivesLast(content, i, key, r) {
      assert key in raw;
      var m :| DefinedAt(content, key, m) && ScalarOf(content[m].value) == Some(raw[key]);
      assert GivenAt(content, key, m) && GivenAt(content, key, i);
    }
  }

  /** An entry with a key is rejected if and only if its value is neither a scalar nor an alias of one. */
  lemma RejectedIff(content: seq<Entry>, e: Entry)
    ensures Rejected(content + [e])
            == Rejected(content)
               + if e.key.Some? && (e.value.Aggregate? || (e.value.Alias? && !e.value.target.Scalar?)) then [e.key.value] else []
  {
    assert (content + [e])[..|content|] == content;
  }

  /** `other` has aliases of scalars in place of some scalars of `content`. */
  ghost predicate Aliased(content: seq<Entry>, other: seq<Entry>) {
    && |content| == |other|
    && forall i | 0 <= i < |content| ::
         && content[i].key == other[i].key
         && (content[i].value == other[i].value || (content[i].value.Scalar? && other[i].value == Alias(content[i].value)))
  }

  lemma {:induction false} SameRejected(content: seq<Entry>, other: seq<Entry>)
    requires Aliased(content, other)
    ensures Rejected(content) == Rejected(other)
    decreases |content|
  {
    if content != [] {
      SameRejected(content[..|content| - 1], other[..|content| - 1]);
    }
  }

  /** An alias of a scalar is as good as the scalar. */
  lemma AliasIsScalar(content: seq<Entry>, other: seq<Entry>, raw: map<string, Raw>)
    requires Aliased(content, other) && Defines(content, raw)
    ensures Defines(other, raw) && Rejected(other) == Rejected(content)
  {
    SameRejected(content, other);
    assert forall i | 0 <= i < |content| :: ScalarOf(content[i].value) == ScalarOf(other[i].value);
    hide ScalarOf;
    assert forall key, i :: GivenAt(content, key, i) <==> GivenAt(other, key, i);
    forall key, i
      ensures DefinedAt(content, key, i) <==> DefinedAt(other, key, i)
    {
    }
    forall key | key in raw
      ensures exists i :: DefinedAt(other, key, i) && ScalarOf(other[i].value) == Some(raw[key])
    {
      var i :| DefinedAt(content, key, i) && ScalarOf(content[i].value) == Some(raw[key]);
      assert DefinedAt(other, key, i);
    }
  }

  lemma NothingDefined()
    ensures Defines([], map[]) && Rejected([]) == []
  {
  }

  lemma RejectedNext(content: seq<Entry>, n: nat)
    requires n < |content|
    ensures Rejected(content[..n + 1])
            == Rejected(content[..n])
               + if content[n].key.Some? && ScalarOf(content[n].value).None? then [content[n].key.value] else []
  {
    assert content[..n + 1][..n] == content[..n];
  }

  lemma FinalUpTo(raw: map<string, Raw>, vars: map<string, string>, resolved: map<string, string>)
    requires Final(raw, vars, resolved, |raw| + 1)
    ensures Final(raw, vars, resolved, |raw|)
  {
    forall k | k in Settled(raw, |raw|)
      ensures Mapping(resolved, k) == Meaning(raw, vars, |raw|, k)
    {
      MeaningIgnoresDepth(raw, vars, |raw|, k);
    }
  }

  method Collect(content: seq<Entry>) returns (keys: seq<string>, raw: map<string, Raw>, errs: seq<string>)
    ensures Defines(content, raw) && errs == Rejected(content)
    ensures (set k | k in keys) == raw.Keys && |keys| == |raw|
  {
    hide Defines, ScalarOf, Rejected;
    keys, raw, errs := [], map[], [];
    NothingDefined();
    for i := 0 to |content|
      invariant (set k | k in keys) == raw.Keys && |keys| == |raw|
      invariant Defines(content[..i], raw) && errs == Rejected(content[..i])
    {
      var e := content[i];
      var value := ScalarOf(e.value);
      DefinesNext(content, i, raw, if e.key.Some? && value.Some? then raw[e.key.value := value.value] else raw);
      RejectedNext(content, i);
      if e.key.None? {
        continue;
      }
      if value.None? {
        errs := errs + [e.key.value];
        continue;
      }
      if e.key.value !in raw {
        keys := keys + [e.key.value];
      }
      raw := raw[e.key.value := value.value];
    }
    assert content[..|content|] == content;
  }

  /** One pass more than there are keys, or as many as it takes until nothing changes. */
  method Resolve(keys: seq<string>, raw: map<string, Raw>, vars: map<string, string>) returns (resolved: map<string, string>)
    requires (set k | k in keys) == raw.Keys && |keys| == |raw|
    ensures Known(raw, resolved) && Final(raw, vars, resolved, |raw|)
  {
    hide Settled, Meaning, Blank, ExpandVars, Fixpoint;
    resolved := map[];
    NothingFinal(raw, vars, resolved);
    for pass := 0 to |keys| + 1
      invariant Known(raw, resolved) && Final(raw, vars, resolved, pass)
    {
      var changed;
      resolved, changed := Pass(keys, raw, vars, resolved, pass);
      if !changed {
        FixpointIsFinal(raw, vars, resolved, |raw|);
        return;
      }
    }
    FinalUpTo(raw, vars, resolved);
  }

  method Merge(keys: seq<string>, resolved: map<string, string>, vars: map<string, string>) returns (merged: map<string, string>)
    ensures merged.Keys == vars.Keys + (set k | k in keys)
    ensures forall name | name in vars && name !in keys :: merged[name] == vars[name]
    ensures forall k | k in keys :: merged[k] == Mapping(resolved, k)
  {
    merged := vars;
    for i := 0 to |keys|
      invariant merged.Keys == vars.Keys + (set k | k in keys[..i])
      invariant forall name | name in vars && name !in keys :: merged[name] == vars[name]
      invariant forall k | k in keys[..i] :: k in merged && merged[k] == Mapping(resolved, k)
    {
      assert keys[..i + 1] == keys[..i] + [keys[i]];
      merged := merged[keys[i] := Mapping(resolved, keys[i])];
    }
    assert keys[..|keys|] == keys;
  }

  /** `content` defines `raw`, and turns the variables `before` into `after`: other variables stay, and every key
      that can be settled gets its meaning. */
  ghost predicate IsParsed(content: seq<Entry>, raw: map<string, Raw>, before: map<string, string>, after: map<string, string>) {
    && Defines(content, raw)
    && after.Keys == before.Keys + raw.Keys
    && (forall name | name in before && name !in raw :: after[name] == before[name])
    && (forall key | key in Settled(raw, |raw|) :: after[key] == Meaning(raw, before, |raw|, key))
  }

  lemma MergedIsParsed(content: seq<Entry>, raw: map<string, Raw>, before: map<string, string>, resolved: map<string, string>,
                       after: map<string, string>)
    requires Defines(content, raw) && Final(raw, before, resolved, |raw|)
    requires after.Keys == before.Keys + raw.Keys
    requires forall name | name in before && name !in raw :: after[name] == before[name]
    requires forall k | k in raw :: after[k] == Mapping(resolved, k)
    ensures IsParsed(content, raw, before, after)
  {
    hide Settled, Meaning, Defines, Mapping;
  }

  /** The order of declaration is of no consequence: blocks with the same entries, no key given twice, give the
      same value to every variable that reaches no cycle, and the same variables altogether without cycles. */
  lemma OrderIsIrrelevant(content: seq<Entry>, other: seq<Entry>, raw: map<string, Raw>, raw': map<string, Raw>,
                          before: map<string, string>, after: map<string, string>, after': map<string, string>)
    requires DistinctKeys(content) && DistinctKeys(other)
    requires forall e :: e in content <==> e in other
    requires IsParsed(content, raw, before, after) && IsParsed(other, raw', before, after')
    ensures after.Keys == after'.Keys
    ensures forall name | name in after && (name in raw ==> name in Settled(raw, |raw|)) :: after[name] == after'[name]
    ensures Acyclic(raw) ==> after == after'
  {
    hide Defines, DistinctKeys, Settled, Meaning, Acyclic;
    SameDefinitions(content, other, raw);
    DefinesOne(other, raw, raw');
    AcyclicIffSettled(raw);
  }

  class Variables {
    var vars: map<string, string>

    constructor ()
      ensures vars == map[]
    {
      vars := map[];
    }

    /** Resolves the definitions of a block against one another and the earlier ones, and merges them. */
    method ParseVariablesBlock(content: seq<Entry>) returns (errs: seq<string>, ghost raw: map<string, Raw>)
      modifies this
      ensures IsParsed(content, raw, old(vars), vars) && errs == Rejected(content)
    {
      hide *;
      var keys, defs;
      keys, defs, errs := Collect(content);
      raw := defs;
      var resolved := Resolve(keys, defs, vars);
      var merged := Merge(keys, resolved, vars);
      assert forall k :: k in raw <==> k in keys;
      MergedIsParsed(content, raw, vars, resolved, merged);
      vars := merged;
    }
  }

  // ---------- empty definitions ----------

  /** The earlier definitions that the block does not define again, as references would see them
      if an empty definition hid an earlier one. */
  ghost function Unhidden(raw: map<string, Raw>, vars: map<string, string>): map<string, string> {
    map name | name in vars && !(name in raw && Blank(raw[name])) :: vars[name]
  }

  /** The block defines `r` as empty, and an earlier load gave it a text that a reference shows. */
  ghost predicate Stale(raw: map<string, Raw>, vars: map<string, string>, r: string) {
    r in raw && Blank(raw[r]) && Shown(r, Mapping(vars, r)) != Shown(r, "")
  }

  ghost predicate NoneStale(raw: map<string, Raw>, vars: map<string, string>) {
    forall k, r | k in raw && Ref(r) in raw[k] :: !Stale(raw, vars, r)
  }

  lemma {:induction false} SameReference(raw: map<string, Raw>, vars: map<string, string>, depth: nat, key: string, r: string)
    requires key in Settled(raw, depth) && Ref(r) in raw[key] && NoneStale(raw, vars)
    ensures ReferenceText(raw, vars, depth, key, r) == ReferenceText(raw, Unhidden(raw, vars), depth, key, r)
    decreases depth, 0
  {
    hide Settled, Unhidden, Stale, Blank;
    if Refers(raw, key, r) {
      hide Refers;
      ReferenceIsSettled(raw, depth, key, r);
      SameWithoutStale(raw, vars, depth - 1, r, raw[r]);
    } else {
      SameText(raw, vars, r);
    }
  }

  lemma {:induction false} SameWithoutStale(raw: map<string, Raw>, vars: map<string, string>, depth: nat, key: string, parts: Raw)
    requires key in Settled(raw, depth) && (forall p | p in parts :: p in raw[key])
    requires NoneStale(raw, vars)
    ensures MeaningOfParts(raw, vars, depth, key, parts) == MeaningOfParts(raw, Unhidden(raw, vars), depth, key, parts)
    decreases depth, |parts| + 1
  {
    hide Settled, Unhidden, NoneStale, ReferenceText;
    if parts != [] {
      SameWithoutStale(raw, vars, depth, key, parts[1..]);
      if parts[0].Ref? {
        assert parts[0] == Ref(parts[0].name);
        SameReference(raw, vars, depth, key, parts[0].name);
      }
    }
  }

  lemma SameText(raw: map<string, Raw>, vars: map<string, string>, r: string)
    requires !Stale(raw, vars, r) && (r in raw ==> Blank(raw[r]))
    ensures Shown(r, Mapping(vars, r)) == Shown(r, Mapping(Unhidden(raw, vars), r))
  {
    hide Blank;
  }

  /** An empty definition hides the earlier one from every reference in an acyclic block if and only if
      no value refers to an empty definition whose earlier text is not empty. */
  lemma EmptyHidesIff(raw: map<string, Raw>, vars: map<string, string>)
    requires Acyclic(raw)
    ensures Settled(raw, |raw|) == raw.Keys
    ensures (forall k, r | k in raw && Ref(r) in raw[k] ::
               ReferenceText(raw, vars, |raw|, k, r) == ReferenceText(raw, Unhidden(raw, vars), |raw|, k, r))
            <==> NoneStale(raw, vars)
  {
    hide Settled, Blank, Meaning;
    AcyclicIffSettled(raw);
    if NoneStale(raw, vars) {
      forall k, r | k in raw && Ref(r) in raw[k]
        ensures ReferenceText(raw, vars, |raw|, k, r) == ReferenceText(raw, Unhidden(raw, vars), |raw|, k, r)
      {
        SameReference(raw, vars, |raw|, k, r);
      }
    } else {
      var k, r :| k in raw && Ref(r) in raw[k] && Stale(raw, vars, r);
      assert ReferenceText(raw, vars, |raw|, k, r) != ReferenceText(raw, Unhidden(raw, vars), |raw|, k, r);
    }
  }

  /** With `a: hello` loaded earlier, the block `a: ""`, `b: ${a}` gives `b` the text hello. */
  lemma EmptyDoesNotHide()
    ensures var raw := map["a" := [], "b" := [Ref("a")]];
            var vars := map["a" := "hello"];
            "b" in Settled(raw, 2) && Meaning(raw, vars, 2, "b") == "hello"
  {
    var raw: map<string, Raw> := map["a" := [], "b" := [Ref("a")]];
    assert raw["b"][1..] == [];
    assert forall r :: !Refers(raw, "b", r);
    assert "b" in Settled(raw, 2);
  }
}
