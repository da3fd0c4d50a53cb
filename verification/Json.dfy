/** The cached payload as a JSON value: what the encoder writes and what the decoder makes of any value. */
module Json {
  import opened Wrappers
  import opened Forest
  import opened Storage
  import opened Trees

  /** A JSON value; `JInstant` is a string holding an instant, `JOther` a value no field of a tree accepts. */
  datatype Json =
    | JNull | JNumber(n: int) | JText(s: string) | JInstant(at: Timestamp) | JOther
    | JArray(items: seq<Json>) | JObject(fields: map<string, Json>)

  datatype DecodeError = WrongType

  type Decoded<+T> = Result<T, DecodeError>

  /** The instant of a field that was never set. */
  const ZERO_TIME: Timestamp := 0

  // ---- encoding ----

  function EncodeIdPointer(id: Option<Id>): Json {
    if id.None? then JNull else JNumber(id.value)
  }

  function EncodeInstantPointer(at: Option<Timestamp>): Json {
    if at.None? then JNull else JInstant(at.value)
  }

  function EncodeEmployee(row: EmployeeRow): Json {
    JObject(map[
      "id" := JNumber(row.id),
      "department_id" := JNumber(row.fields.departmentId),
      "full_name" := JText(row.fields.fullName),
      "position" := JText(row.fields.position),
      "hired_at" := EncodeInstantPointer(row.fields.hiredAt),
      "created_at" := JInstant(row.fields.createdAt)])
  }

  function EncodeEmployees(rows: seq<EmployeeRow>): seq<Json> {
    if rows == [] then [] else [EncodeEmployee(rows[0])] + EncodeEmployees(rows[1..])
  }

  /** A nil slice is null; so is a pointer to one. */
  function EncodeEmployeeSlice(slice: Slice<EmployeeRow>): Json {
    if slice.Nil? then JNull else JArray(EncodeEmployees(slice.items))
  }

  /** An employees pointer that is nil is omitted, not written as null. */
  function EncodeTree(tree: Tree): Json
    decreases tree, 1
  {
    var fields := map[
      "id" := JNumber(tree.id),
      "name" := JText(tree.name),
      "parent_id" := EncodeIdPointer(tree.parentId),
      "created_at" := JInstant(tree.createdAt),
      "children" := if tree.children.Nil? then JNull else JArray(EncodeTrees(tree.children.items))];
    JObject(if tree.employees.None? then fields
            else fields["employees" := EncodeEmployeeSlice(tree.employees.value)])
  }

  function EncodeTrees(trees: seq<Tree>): seq<Json>
    decreases trees, 0
  {
    if trees == [] then [] else [EncodeTree(trees[0])] + EncodeTrees(trees[1..])
  }

  // ---- decoding ----

  /** A missing field and a null one both leave the Go field as it was: zero. */
  function Field(fields: map<string, Json>, name: string): (value: Json)
    ensures value == JNull || (name in fields && value == fields[name])
  {
    if name in fields then fields[name] else JNull
  }

  function DecodeId(json: Json): Decoded<Id> {
    match json
    case JNull => Ok(0)
    case JNumber(n) => if 0 <= n < 0x1_0000_0000_0000_0000 then Ok(n) else Err(WrongType)
    case _ => Err(WrongType)
  }

  function DecodeIdPointer(json: Json): Decoded<Option<Id>> {
    if json.JNull? then Ok(None)
    else
      var id :- DecodeId(json);
      Ok(Some(id))
  }

  function DecodeText(json: Json): Decoded<string> {
    match json
    case JNull => Ok("")
    case JText(s) => Ok(s)
    case _ => Err(WrongType)
  }

  function DecodeInstant(json: Json): Decoded<Timestamp> {
    match json
    case JNull => Ok(ZERO_TIME)
    case JInstant(at) => Ok(at)
    case _ => Err(WrongType)
  }

  function DecodeInstantPointer(json: Json): Decoded<Option<Timestamp>> {
    if json.JNull? then Ok(None)
    else
      var at :- DecodeInstant(json);
      Ok(Some(at))
  }

  function DecodeEmployee(json: Json): Decoded<EmployeeRow> {
    match json
    case JNull => Ok(EmployeeRow(0, Employee(0, "", "", None, ZERO_TIME)))
    case JObject(fields) =>
      var id :- DecodeId(Field(fields, "id"));
      var departmentId :- DecodeId(Field(fields, "department_id"));
      var fullName :- DecodeText(Field(fields, "full_name"));
      var position :- DecodeText(Field(fields, "position"));
      var hiredAt :- DecodeInstantPointer(Field(fields, "hired_at"));
      var createdAt :- DecodeInstant(Field(fields, "created_at"));
      Ok(EmployeeRow(id, Employee(departmentId, fullName, position, hiredAt, createdAt)))
    case _ => Err(WrongType)
  }

  function DecodeEmployees(items: seq<Json>): Decoded<seq<EmployeeRow>> {
    if items == [] then Ok([])
    else
      var first :- DecodeEmployee(items[0]);
      var rest :- DecodeEmployees(items[1..]);
      Ok([first] + rest)
  }

  function DecodeEmployeesPointer(json: Json): Decoded<Option<Slice<EmployeeRow>>> {
    match json
    case JNull => Ok(None)
    case JArray(items) =>
      var rows :- DecodeEmployees(items);
      Ok(Some(Items(rows)))
    case _ => Err(WrongType)
  }

  function DecodeTree(json: Json): Decoded<Tree>
    decreases json, 2
  {
    match json
    case JNull => Ok(Tree(0, "", None, ZERO_TIME, None, Nil))
    case JObject(fields) =>
      var id :- DecodeId(Field(fields, "id"));
      var name :- DecodeText(Field(fields, "name"));
      var parentId :- DecodeIdPointer(Field(fields, "parent_id"));
      var createdAt :- DecodeInstant(Field(fields, "created_at"));
      var employees :- DecodeEmployeesPointer(Field(fields, "employees"));
      var children :- if "children" in fields then DecodeChildren(fields["children"]) else Ok(Nil);
      Ok(Tree(id, name, parentId, createdAt, employees, children))
    case _ => Err(WrongType)
  }

  function DecodeChildren(json: Json): Decoded<Slice<Tree>>
    decreases json, 1
  {
    match json
    case JNull => Ok(Nil)
    case JArray(items) =>
      var trees :- DecodeTrees(items);
      Ok(Items(trees))
    case _ => Err(WrongType)
  }

  function DecodeTrees(items: seq<Json>): Decoded<seq<Tree>>
    decreases items, 0
  {
    if items == [] then Ok([])
    else
      var first :- DecodeTree(items[0]);
      var rest :- DecodeTrees(items[1..]);
      Ok([first] + rest)
  }

  // ---- the round trip ----

  /** The tree with every pointer to a nil list replaced by a nil pointer. */
  function Strip(tree: Tree): Tree
    decreases tree, 1
  {
    tree.(employees := if tree.employees == Some(Nil) then None else tree.employees,
          children := if tree.children.Nil? then Nil else Items(StripAll(tree.children.items)))
  }

  function StripAll(trees: seq<Tree>): seq<Tree>
    decreases trees, 0
  {
    if trees == [] then [] else [Strip(trees[0])] + StripAll(trees[1..])
  }

  /** No node anywhere in the tree points at a nil list. */
  predicate NoNilLists(tree: Tree)
    decreases tree, 1
  {
    tree.employees != Some(Nil) && (tree.children.Items? ==> NoNilListsIn(tree.children.items))
  }

  predicate NoNilListsIn(trees: seq<Tree>)
    decreases trees, 0
  {
    trees == [] || (NoNilLists(trees[0]) && NoNilListsIn(trees[1..]))
  }

  lemma EmployeeRoundTrip(row: EmployeeRow)
    ensures DecodeEmployee(EncodeEmployee(row)) == Ok(row)
  {
  }

  lemma {:induction false} EmployeesRoundTrip(rows: seq<EmployeeRow>)
    ensures DecodeEmployees(EncodeEmployees(rows)) == Ok(rows)
  {
    if rows != [] {
      EmployeeRoundTrip(rows[0]);
      EmployeesRoundTrip(rows[1..]);
      assert EncodeEmployees(rows)[1..] == EncodeEmployees(rows[1..]);
      assert [rows[0]] + rows[1..] == rows;
    }
  }

  lemma TreeFields(tree: Tree)
    ensures EncodeTree(tree).JObject?
    ensures var fields := EncodeTree(tree).fields;
            && Field(fields, "id") == JNumber(tree.id)
            && Field(fields, "name") == JText(tree.name)
            && Field(fields, "parent_id") == EncodeIdPointer(tree.parentId)
            && Field(fields, "created_at") == JInstant(tree.createdAt)
            && Field(fields, "employees") ==
                 (if tree.employees.None? then JNull else EncodeEmployeeSlice(tree.employees.value))
            && "children" in fields
            && fields["children"] == (if tree.children.Nil? then JNull else JArray(EncodeTrees(tree.children.items)))
  {
  }

  /** A document whose fields decode to a tree's decodes to that tree. */
  lemma DecodeFields(fields: map<string, Json>, tree: Tree)
    requires Field(fields, "id") == JNumber(tree.id)
    requires Field(fields, "name") == JText(tree.name)
    requires Field(fields, "parent_id") == EncodeIdPointer(tree.parentId)
    requires Field(fields, "created_at") == JInstant(tree.createdAt)
    requires DecodeEmployeesPointer(Field(fields, "employees")) == Ok(tree.employees)
    requires "children" in fields && DecodeChildren(fields["children"]) == Ok(tree.children)
    ensures DecodeTree(JObject(fields)) == Ok(tree)
  {
  }

  lemma {:induction false} TreeRoundTrip(tree: Tree)
    ensures DecodeTree(EncodeTree(tree)) == Ok(Strip(tree))
    decreases tree, 1
  {
    TreeFields(tree);
    if tree.employees.Some? && tree.employees.value.Items? {
      EmployeesRoundTrip(tree.employees.value.items);
    }
    if tree.children.Items? {
      TreesRoundTrip(tree.children.items);
    }
    DecodeFields(EncodeTree(tree).fields, Strip(tree));
  }

  lemma {:induction false} TreesRoundTrip(trees: seq<Tree>)
    ensures DecodeTrees(EncodeTrees(trees)) == Ok(StripAll(trees))
    decreases trees, 0
  {
    if trees != [] {
      TreeRoundTrip(trees[0]);
      TreesRoundTrip(trees[1..]);
      assert EncodeTrees(trees)[1..] == EncodeTrees(trees[1..]);
    }
  }

  lemma {:induction false} StripChangesNilLists(tree: Tree)
    ensures Strip(tree) == tree <==> NoNilLists(tree)
    decreases tree, 1
  {
    if tree.children.Items? {
      StripAllChangesNilLists(tree.children.items);
    }
  }

  lemma {:induction false} StripAllChangesNilLists(trees: seq<Tree>)
    ensures |StripAll(trees)| == |trees|
    ensures StripAll(trees) == trees <==> NoNilListsIn(trees)
    decreases trees, 0
  {
    if trees != [] {
      StripChangesNilLists(trees[0]);
      StripAllChangesNilLists(trees[1..]);
      assert StripAll(trees)[0] == Strip(trees[0]) && StripAll(trees)[1..] == StripAll(trees[1..]);
      if NoNilListsIn(trees) {
        assert [trees[0]] + trees[1..] == trees;
      }
    }
  }

  /** Decoding what was encoded gives the same tree exactly when no node points at a nil list. */
  lemma RoundTripExact(tree: Tree)
    ensures DecodeTree(EncodeTree(tree)) == Ok(tree) <==> NoNilLists(tree)
  {
    TreeRoundTrip(tree);
    StripChangesNilLists(tree);
  }

  lemma {:induction false} ValidHasNoNilLists(tree: Tree, depth: int, withEmployees: bool)
    requires ValidNode(tree, depth, withEmployees)
    ensures NoNilLists(tree)
    decreases tree, 1
  {
    if depth > 0 {
      ValidAllHaveNoNilLists(tree.children.items, depth - 1, withEmployees);
    }
  }

  lemma {:induction false} ValidAllHaveNoNilLists(trees: seq<Tree>, depth: int, withEmployees: bool)
    requires forall i :: 0 <= i < |trees| ==> ValidNode(trees[i], depth, withEmployees)
    ensures NoNilListsIn(trees)
    decreases trees, 0
  {
    if trees != [] {
      ValidHasNoNilLists(trees[0], depth, withEmployees);
      ValidAllHaveNoNilLists(trees[1..], depth, withEmployees);
    }
  }

  /** A tree that passes the check survives the cache unchanged. */
  lemma ValidRoundTrip(tree: Tree, id: Id, depth: int, withEmployees: bool)
    requires Valid(tree, id, depth, withEmployees)
    ensures DecodeTree(EncodeTree(tree)) == Ok(tree)
  {
    ValidHasNoNilLists(tree, depth, withEmployees);
    RoundTripExact(tree);
  }

  /** A tree with a pointer to a nil list comes back without it, and a check that wants employees then rejects it. */
  lemma {:induction false} NilListRejected(tree: Tree, depth: int)
    requires !NoNilLists(tree)
    ensures DecodeTree(EncodeTree(tree)) == Ok(Strip(tree))
    ensures !ValidNode(Strip(tree), depth, true)
    decreases tree, 1
  {
    TreeRoundTrip(tree);
    if tree.employees != Some(Nil) {
      var i := NilListRejectedIn(tree.children.items, depth - 1);
    }
  }

  lemma {:induction false} NilListRejectedIn(trees: seq<Tree>, depth: int) returns (i: nat)
    requires !NoNilListsIn(trees)
    ensures |StripAll(trees)| == |trees| && i < |trees|
    ensures !ValidNode(StripAll(trees)[i], depth, true)
    decreases trees, 0
  {
    StripAllChangesNilLists(trees);
    if !NoNilLists(trees[0]) {
      NilListRejected(trees[0], depth);
      i := 0;
    } else {
      var j := NilListRejectedIn(trees[1..], depth);
      i := j + 1;
      assert StripAll(trees)[i] == StripAll(trees[1..])[j];
    }
  }
}
