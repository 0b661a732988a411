/** The tool manifest and the registry of manifests the catalogue is built
    from. The registry itself is a parameter of the model: a sequence of
    manifests whose ids are unique. */
module ToolTypes {
  import opened Wrappers

  datatype Category = Text | Encoders | Formatters | Generators | Converters

  /** A manifest without its icon and its module loader. */
  datatype ToolManifest = ToolManifest(
    id: string,
    name: string,
    description: string,
    category: Category,
    tags: seq<string>)

  /** Every id in the registry names one manifest. */
  predicate UniqueIds(tools: seq<ToolManifest>)
  {
    forall i, j :: 0 <= i < j < |tools| ==> tools[i].id != tools[j].id
  }

  predicate HasId(tools: seq<ToolManifest>, id: string)
  {
    exists i :: 0 <= i < |tools| && tools[i].id == id
  }

  /** `tools.find((t) => t.id === id)`: the first manifest with that id. */
  function FindById(tools: seq<ToolManifest>, id: string): (r: Option<ToolManifest>)
    ensures r.None? <==> !HasId(tools, id)
    ensures r.Some? ==> exists i :: 0 <= i < |tools| && tools[i] == r.value
                          && r.value.id == id
                          && forall j :: 0 <= j < i ==> tools[j].id != id
  {
    if tools == [] then None
    else if tools[0].id == id then Some(tools[0])
    else
      var r := FindById(tools[1..], id);
      assert HasId(tools, id) <==> HasId(tools[1..], id) by {
        if HasId(tools, id) {
          var i :| 0 <= i < |tools| && tools[i].id == id;
          assert tools[1..][i - 1] == tools[i];
        }
        if HasId(tools[1..], id) {
          var i :| 0 <= i < |tools[1..]| && tools[1..][i].id == id;
          assert tools[i + 1] == tools[1..][i];
        }
      }
      if r.Some? then
        assert exists i :: 0 <= i < |tools| && tools[i] == r.value
                 && r.value.id == id
                 && forall j :: 0 <= j < i ==> tools[j].id != id by {
          var i :| 0 <= i < |tools[1..]| && tools[1..][i] == r.value
                   && forall j :: 0 <= j < i ==> tools[1..][j].id != id;
          assert tools[i + 1] == r.value;
          forall j | 0 <= j < i + 1 ensures tools[j].id != id {
            if j > 0 { assert tools[j] == tools[1..][j - 1]; }
          }
        }
        r
      else r
  }

  /** With unique ids, a lookup finds the manifest at the id's position. */
  lemma FindUnique(tools: seq<ToolManifest>, i: nat)
    requires UniqueIds(tools) && i < |tools|
    ensures FindById(tools, tools[i].id) == Some(tools[i])
  {
  }
}
