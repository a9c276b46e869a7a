/** The scan of a JSON payload for populated sensitive keys (scripts/admin/admin-api-smoke.ts). */
module SensitiveScan {
  import opened Sequences
  import opened Wrappers

  datatype Field = Field(key: string, value: Json)

  /** A parsed JSON value; a number or a boolean is kept as the text `String` gives it. */
  datatype Json = Null | Scalar(text: string) | Text(text: string) | Array(items: seq<Json>) | Object(fields: seq<Field>)

  /** Keys of one object are distinct, everywhere in the tree. */
  ghost predicate WellFormed(v: Json) {
    match v
    case Array(items) => forall i :: 0 <= i < |items| ==> WellFormed(items[i])
    case Object(fields) => DistinctKeys(fields) && forall i :: 0 <= i < |fields| ==> WellFormed(fields[i].value)
    case _ => true
  }

  ghost predicate DistinctKeys(fields: seq<Field>) {
    forall i, j :: 0 <= i < j < |fields| ==> fields[i].key != fields[j].key
  }

  // ----- `String(value)` -----

  function ToText(v: Json): string {
    match v
    case Null => "null"
    case Scalar(text) => text
    case Text(text) => text
    case Array(items) => Join(items)
    case Object(_) => "[object Object]"
  }

  /** Arrays are joined with commas; a null entry is empty. */
  function Join(items: seq<Json>): string {
    if items == [] then ""
    else (if items[0].Null? then "" else ToText(items[0])) + if |items| == 1 then "" else "," + Join(items[1..])
  }

  const REDACTED := "<redacted>"

  predicate Populated(v: Json) {
    !v.Null? && ToText(v) != "" && ToText(v) != REDACTED
  }

  lemma JoinHasComma(items: seq<Json>)
    requires |items| >= 2
    ensures ',' in Join(items)
  {
    var first := if items[0].Null? then "" else ToText(items[0]);
    assert Join(items)[|first|] == ',';
  }

  /** Which values count as populated: no null, no empty and no redacted text; any object; a list unless it is empty or
      its only entry is not populated. */
  lemma PopulatedMeans(v: Json)
    ensures match v
      case Null => !Populated(v)
      case Scalar(text) => Populated(v) <==> text != "" && text != "<redacted>"
      case Text(text) => Populated(v) <==> text != "" && text != "<redacted>"
      case Object(_) => Populated(v)
      case Array(items) => Populated(v) <==> |items| >= 2 || (|items| == 1 && Populated(items[0]))
  {
    match v
    case Array(items) =>
      if |items| >= 2 {
        JoinHasComma(items);
        assert ',' !in REDACTED;
      }
    case Object(_) => assert "[object Object]"[0] != REDACTED[0];
    case _ =>
  }

  // ----- The scan -----

  datatype Step = Key(key: string) | Index(index: nat)

  type Path = seq<Step>

  /** Recognizes sensitive keys. */
  type KeyTest = string -> bool

  function Under(step: Step, paths: seq<Path>): seq<Path> {
    seq(|paths|, i requires 0 <= i < |paths| => [step] + paths[i])
  }

  /** The findings below a value, as paths from that value. */
  function Scan(v: Json, sensitive: KeyTest): seq<Path>
    decreases v, 1, 0
  {
    match v
    case Array(items) => ScanItems(v, items, |items|, sensitive)
    case Object(fields) => ScanFields(v, fields, |fields|, sensitive)
    case _ => []
  }

  function ScanItems(v: Json, items: seq<Json>, n: nat, sensitive: KeyTest): seq<Path>
    requires v == Array(items) && n <= |items|
    decreases v, 0, n
  {
    if n == 0 then []
    else ScanItems(v, items, n - 1, sensitive) + Under(Index(n - 1), Scan(items[n - 1], sensitive))
  }

  function ScanFields(v: Json, fields: seq<Field>, n: nat, sensitive: KeyTest): seq<Path>
    requires v == Object(fields) && n <= |fields|
    decreases v, 0, n
  {
    if n == 0 then []
    else
      ScanFields(v, fields, n - 1, sensitive) + FieldScan(fields[n - 1], sensitive)
  }

  /** A populated sensitive key is reported and not descended into. */
  function FieldScan(field: Field, sensitive: KeyTest): seq<Path>
    decreases field, 0, 0
  {
    if sensitive(field.key) && Populated(field.value) then [[Key(field.key)]]
    else Under(Key(field.key), Scan(field.value, sensitive))
  }

  function Below(path: Path, paths: seq<Path>): seq<Path> {
    seq(|paths|, i requires 0 <= i < |paths| => path + paths[i])
  }

  lemma BelowUnder(path: Path, step: Step, paths: seq<Path>)
    ensures Below(path, Under(step, paths)) == Below(path + [step], paths)
  {
    forall i | 0 <= i < |paths| ensures path + ([step] + paths[i]) == path + [step] + paths[i] {
    }
  }

  lemma BelowConcat(path: Path, a: seq<Path>, b: seq<Path>)
    ensures Below(path, a + b) == Below(path, a) + Below(path, b)
  {
  }

  /** The recursive scan: it carries the path of the value and pushes findings in a loop. */
  method FindSensitiveValues(v: Json, path: Path, sensitive: KeyTest) returns (findings: seq<Path>)
    ensures findings == Below(path, Scan(v, sensitive))
    decreases v
  {
    findings := [];
    match v
    case Array(items) =>
      for i := 0 to |items|
        invariant findings == Below(path, ScanItems(v, items, i, sensitive))
      {
        var inner := FindSensitiveValues(items[i], path + [Index(i)], sensitive);
        BelowUnder(path, Index(i), Scan(items[i], sensitive));
        BelowConcat(path, ScanItems(v, items, i, sensitive), Under(Index(i), Scan(items[i], sensitive)));
        findings := findings + inner;
      }
    case Object(fields) =>
      for i := 0 to |fields|
        invariant findings == Below(path, ScanFields(v, fields, i, sensitive))
      {
        var field := fields[i];
        var childPath := path + [Key(field.key)];
        BelowConcat(path, ScanFields(v, fields, i, sensitive), FieldScan(field, sensitive));
        if sensitive(field.key) && Populated(field.value) {
          findings := findings + [childPath];
          continue;
        }
        var inner := FindSensitiveValues(field.value, childPath, sensitive);
        BelowUnder(path, Key(field.key), Scan(field.value, sensitive));
        findings := findings + inner;
      }
    case _ =>
  }

  // ----- What is there to be found -----

  function Lookup(fields: seq<Field>, key: string): Option<Json> {
    if fields == [] then None
    else if fields[|fields| - 1].key == key then Some(fields[|fields| - 1].value)
    else Lookup(fields[..|fields| - 1], key)
  }

  function Child(v: Json, step: Step): Option<Json> {
    match v
    case Array(items) => if step.Index? && step.index < |items| then Some(items[step.index]) else None
    case Object(fields) => if step.Key? then Lookup(fields, step.key) else None
    case _ => None
  }

  function At(v: Json, path: Path): Option<Json>
    decreases |path|
  {
    if path == [] then Some(v)
    else
      var child := Child(v, path[0]);
      if child.None? then None else At(child.value, path[1..])
  }

  /** A populated, unredacted sensitive key at the end of `path`. */
  predicate Exposed(v: Json, path: Path, sensitive: KeyTest) {
    path != []
    && path[|path| - 1].Key? && sensitive(path[|path| - 1].key)
    && At(v, path).Some? && Populated(At(v, path).value)
  }

  /** Exposed, and not inside something exposed. */
  ghost predicate Outermost(v: Json, path: Path, sensitive: KeyTest) {
    Exposed(v, path, sensitive) && forall n :: 0 <= n < |path| ==> !Exposed(v, path[..n], sensitive)
  }

  predicate Flagged(step: Step, child: Json, sensitive: KeyTest) {
    step.Key? && sensitive(step.key) && Populated(child)
  }

  lemma ExposedStep(v: Json, path: Path, sensitive: KeyTest)
    requires path != []
    ensures var child := Child(v, path[0]);
      Exposed(v, path, sensitive) <==>
        child.Some? && if |path| == 1 then Flagged(path[0], child.value, sensitive) else Exposed(child.value, path[1..], sensitive)
  {
    if |path| == 1 {
      assert path[1..] == [];
    } else {
      assert path[1..][|path| - 2] == path[|path| - 1];
    }
  }

  /** An exposed child hides what is below it; otherwise the step does not matter. */
  lemma OutermostStep(v: Json, path: Path, sensitive: KeyTest)
    requires path != []
    ensures var child := Child(v, path[0]);
      Outermost(v, path, sensitive) <==>
        child.Some? && if Flagged(path[0], child.value, sensitive) then |path| == 1 else Outermost(child.value, path[1..], sensitive)
  {
    var child := Child(v, path[0]);
    ExposedStep(v, path, sensitive);
    forall n | 0 < n <= |path|
      ensures Exposed(v, path[..n], sensitive) <==>
        child.Some? && if n == 1 then Flagged(path[0], child.value, sensitive) else Exposed(child.value, path[1..][..n - 1], sensitive)
    {
      ExposedStep(v, path[..n], sensitive);
      assert path[..n][1..] == path[1..][..n - 1] && path[..n][0] == path[0];
    }
    assert path[..|path|] == path && path[1..][..|path| - 1] == path[1..];
    if child.Some? && !Flagged(path[0], child.value, sensitive) {
      if Outermost(child.value, path[1..], sensitive) {
        forall n | 0 <= n < |path| ensures !Exposed(v, path[..n], sensitive) {
          if n > 1 { assert !Exposed(child.value, path[1..][..n - 1], sensitive); }
        }
      }
      if Outermost(v, path, sensitive) {
        forall n | 0 <= n < |path| - 1 ensures !Exposed(child.value, path[1..][..n], sensitive) {
          assert !Exposed(v, path[..n + 1], sensitive);
        }
      }
    }
    if child.Some? && Flagged(path[0], child.value, sensitive) && |path| > 1 {
      assert Exposed(v, path[..1], sensitive);
    }
  }

  // ----- The scan finds exactly the outermost exposed keys -----

  lemma InUnder(step: Step, paths: seq<Path>, path: Path)
    ensures path in Under(step, paths) <==> path != [] && path[0] == step && path[1..] in paths
  {
    if path in Under(step, paths) {
      var i :| 0 <= i < |paths| && path == [step] + paths[i];
      assert path[1..] == paths[i];
    }
    if path != [] && path[0] == step && path[1..] in paths {
      var i :| 0 <= i < |paths| && path[1..] == paths[i];
      assert Under(step, paths)[i] == path;
    }
  }

  lemma {:induction false} LookupDistinct(fields: seq<Field>, i: nat)
    requires DistinctKeys(fields) && i < |fields|
    ensures Lookup(fields, fields[i].key) == Some(fields[i].value)
  {
    var n := |fields| - 1;
    if i < n {
      LookupDistinct(fields[..n], i);
    }
  }

  lemma {:induction false} LookupMissing(fields: seq<Field>, key: string)
    requires forall i :: 0 <= i < |fields| ==> fields[i].key != key
    ensures Lookup(fields, key) == None
  {
    if fields != [] { LookupMissing(fields[..|fields| - 1], key); }
  }

  /** A path is found exactly when it leads to an outermost populated, unredacted sensitive key. */
  lemma {:induction false} ScanFindsOutermost(v: Json, path: Path, sensitive: KeyTest)
    requires WellFormed(v)
    ensures path in Scan(v, sensitive) <==> Outermost(v, path, sensitive)
    decreases v, 1, 0
  {
    match v
    case Array(items) =>
      ItemsFound(v, items, |items|, path, sensitive);
      if path != [] { OutermostStep(v, path, sensitive); }
    case Object(fields) =>
      FieldsFound(v, fields, |fields|, path, sensitive);
      if path != [] {
        OutermostStep(v, path, sensitive);
        if path[0].Key? { KeyFound(fields, path[0].key); }
      }
    case _ =>
      if path != [] { OutermostStep(v, path, sensitive); }
  }

  lemma KeyFound(fields: seq<Field>, key: string)
    requires DistinctKeys(fields)
    ensures forall i :: 0 <= i < |fields| && fields[i].key == key ==> Lookup(fields, key) == Some(fields[i].value)
    ensures (forall i :: 0 <= i < |fields| ==> fields[i].key != key) ==> Lookup(fields, key) == None
  {
    forall i | 0 <= i < |fields| && fields[i].key == key ensures Lookup(fields, key) == Some(fields[i].value) {
      LookupDistinct(fields, i);
    }
    if forall i :: 0 <= i < |fields| ==> fields[i].key != key { LookupMissing(fields, key); }
  }

  lemma {:induction false} ItemsFound(v: Json, items: seq<Json>, n: nat, path: Path, sensitive: KeyTest)
    requires v == Array(items) && n <= |items| && WellFormed(v)
    ensures path in ScanItems(v, items, n, sensitive) <==>
      path != [] && path[0].Index? && path[0].index < n && Outermost(items[path[0].index], path[1..], sensitive)
    decreases v, 0, n
  {
    if n > 0 {
      ItemsFound(v, items, n - 1, path, sensitive);
      ItemFound(items[n - 1], n - 1, path, sensitive);
    }
  }

  lemma {:induction false} ItemFound(item: Json, index: nat, path: Path, sensitive: KeyTest)
    requires WellFormed(item)
    ensures path in Under(Index(index), Scan(item, sensitive)) <==>
      path != [] && path[0] == Index(index) && Outermost(item, path[1..], sensitive)
    decreases item, 2, 0
  {
    InUnder(Index(index), Scan(item, sensitive), path);
    if path != [] { ScanFindsOutermost(item, path[1..], sensitive); }
  }

  ghost predicate FoundInField(field: Field, path: Path, sensitive: KeyTest) {
    path != [] && path[0] == Key(field.key)
    && if sensitive(field.key) && Populated(field.value) then |path| == 1 else Outermost(field.value, path[1..], sensitive)
  }

  lemma {:induction false} FieldsFound(v: Json, fields: seq<Field>, n: nat, path: Path, sensitive: KeyTest)
    requires v == Object(fields) && n <= |fields| && WellFormed(v)
    ensures path in ScanFields(v, fields, n, sensitive) <==> exists i :: 0 <= i < n && FoundInField(fields[i], path, sensitive)
    decreases v, 0, n
  {
    if n > 0 {
      FieldsFound(v, fields, n - 1, path, sensitive);
      LastFieldFound(fields[n - 1], path, sensitive);
    }
  }

  lemma {:induction false} LastFieldFound(field: Field, path: Path, sensitive: KeyTest)
    requires WellFormed(field.value)
    ensures path in FieldScan(field, sensitive) <==> FoundInField(field, path, sensitive)
    decreases field, 0, 0
  {
    InUnder(Key(field.key), Scan(field.value, sensitive), path);
    if path != [] {
      ScanFindsOutermost(field.value, path[1..], sensitive);
      assert path == [Key(field.key)] <==> path[0] == Key(field.key) && |path| == 1;
    }
  }

  // ----- Consequences -----

  /** The scan is clean exactly when nothing is exposed anywhere in the tree. */
  lemma CleanIffNothingExposed(v: Json, sensitive: KeyTest)
    requires WellFormed(v)
    ensures Scan(v, sensitive) == [] <==> forall path :: !Exposed(v, path, sensitive)
  {
    if Scan(v, sensitive) != [] {
      var path := Scan(v, sensitive)[0];
      ScanFindsOutermost(v, path, sensitive);
      assert Exposed(v, path, sensitive);
    }
    forall path | Exposed(v, path, sensitive) ensures Scan(v, sensitive) != [] {
      assert path[..|path|] == path;
      var n := FirstExposed(v, path, |path|, sensitive);
      OutermostPrefix(v, path, n, sensitive);
      ScanFindsOutermost(v, path[..n], sensitive);
    }
  }

  /** Length of the shortest exposed prefix. */
  ghost function FirstExposed(v: Json, path: Path, n: nat, sensitive: KeyTest): (k: nat)
    requires n <= |path| && Exposed(v, path[..n], sensitive)
    ensures k <= n && Exposed(v, path[..k], sensitive) && forall j :: 0 <= j < k ==> !Exposed(v, path[..j], sensitive)
  {
    if j :| 0 <= j < n && Exposed(v, path[..j], sensitive) then FirstExposed(v, path, j, sensitive) else n
  }

  lemma OutermostPrefix(v: Json, path: Path, n: nat, sensitive: KeyTest)
    requires n <= |path| && Exposed(v, path[..n], sensitive)
    requires forall j :: 0 <= j < n ==> !Exposed(v, path[..j], sensitive)
    ensures Outermost(v, path[..n], sensitive)
  {
    forall j | 0 <= j < n ensures !Exposed(v, path[..n][..j], sensitive) { assert path[..n][..j] == path[..j]; }
  }

  /** No finding is a proper prefix of another. */
  lemma NoFindingInsideAnother(v: Json, p: Path, q: Path, sensitive: KeyTest)
    requires WellFormed(v) && p in Scan(v, sensitive) && q in Scan(v, sensitive)
    ensures forall n :: 0 <= n < |q| ==> q[..n] != p
  {
    ScanFindsOutermost(v, p, sensitive);
    ScanFindsOutermost(v, q, sensitive);
    forall n | 0 <= n < |q| ensures q[..n] != p {
      assert !Exposed(v, q[..n], sensitive);
    }
  }

  lemma UnderNoRepeats(step: Step, paths: seq<Path>)
    requires NoRepeats(paths)
    ensures NoRepeats(Under(step, paths))
  {
    forall i, j | 0 <= i < j < |paths| ensures [step] + paths[i] != [step] + paths[j] {
      assert ([step] + paths[i])[1..] == paths[i] && ([step] + paths[j])[1..] == paths[j];
    }
  }

  /** No key is reported twice. */
  lemma {:induction false} FindingsDistinct(v: Json, sensitive: KeyTest)
    requires WellFormed(v)
    ensures NoRepeats(Scan(v, sensitive))
    decreases v, 1, 0
  {
    match v
    case Array(items) => ItemsDistinct(v, items, |items|, sensitive);
    case Object(fields) => FieldsDistinct(v, fields, |fields|, sensitive);
    case _ =>
  }

  lemma ConcatNoRepeats(a: seq<Path>, b: seq<Path>)
    requires NoRepeats(a) && NoRepeats(b) && forall p :: p in a ==> p !in b
    ensures NoRepeats(a + b)
  {
    forall i, j | 0 <= i < j < |a + b| ensures (a + b)[i] != (a + b)[j] {
      if i < |a| <= j { assert a[i] in a && b[j - |a|] in b; }
    }
  }

  lemma {:induction false} ItemsDistinct(v: Json, items: seq<Json>, n: nat, sensitive: KeyTest)
    requires v == Array(items) && n <= |items| && WellFormed(v)
    ensures NoRepeats(ScanItems(v, items, n, sensitive))
    decreases v, 0, n
  {
    if n > 0 {
      ItemsDistinct(v, items, n - 1, sensitive);
      FindingsDistinct(items[n - 1], sensitive);
      UnderNoRepeats(Index(n - 1), Scan(items[n - 1], sensitive));
      var a, b := ScanItems(v, items, n - 1, sensitive), Under(Index(n - 1), Scan(items[n - 1], sensitive));
      forall p | p in a ensures p !in b {
        ItemsFound(v, items, n - 1, p, sensitive);
        InUnder(Index(n - 1), Scan(items[n - 1], sensitive), p);
      }
      ConcatNoRepeats(a, b);
    }
  }

  lemma {:induction false} FieldsDistinct(v: Json, fields: seq<Field>, n: nat, sensitive: KeyTest)
    requires v == Object(fields) && n <= |fields| && WellFormed(v)
    ensures NoRepeats(ScanFields(v, fields, n, sensitive))
    decreases v, 0, n
  {
    if n > 0 {
      var field := fields[n - 1];
      FieldsDistinct(v, fields, n - 1, sensitive);
      FindingsDistinct(field.value, sensitive);
      UnderNoRepeats(Key(field.key), Scan(field.value, sensitive));
      var a, b := ScanFields(v, fields, n - 1, sensitive), FieldScan(field, sensitive);
      forall p | p in a ensures p !in b {
        FieldsFound(v, fields, n - 1, p, sensitive);
        LastFieldFound(field, p, sensitive);
      }
      ConcatNoRepeats(a, b);
    }
  }
}
