/** The design-document tree as the scripts read it, the icon descriptors they
    build from it, and the lookups and URL merge both scripts share. */
module Document {

  datatype Option<+T> = None | Some(value: T)

  datatype Result<+T, +E> = Ok(value: T) | Err(error: E)

  /** A node of the remote document. */
  datatype Node = Node(id: string, name: string, kind: string, children: Children)

  /** A node's `children` property: `Absent` when the node has none at all (a
      vector leaf, say), which JavaScript treats differently from an empty list
      in `root.children.find(...)`. */
  datatype Children = Absent | Present(nodes: seq<Node>)

  /** The children a `forEach` over `node.children` visits when `children` is
      present, and nothing otherwise. */
  function Kids(n: Node): seq<Node>
  {
    if n.children.Present? then n.children.nodes else []
  }

  /** The two node types that are exported as icons. */
  predicate IsIcon(n: Node) {
    n.kind == "COMPONENT" || n.kind == "INSTANCE"
  }

  /** One exported icon: the object pushed into `iconsArray`. `page` is set only
      by the multi-page script, `image` once the URL of the icon is known. */
  datatype Icon = Icon(
    id: string,
    name: string,
    path: string,
    category: string,
    page: Option<string>,
    image: Option<string>)

  /** `kids.findIndex((c) => c.name === name)`, as an option. */
  function FindIndex(kids: seq<Node>, name: string): (r: Option<nat>)
    ensures r.Some? ==> r.value < |kids| && kids[r.value].name == name
    ensures r.Some? ==> forall j :: 0 <= j < r.value ==> kids[j].name != name
    ensures r.None? <==> forall j :: 0 <= j < |kids| ==> kids[j].name != name
  {
    if kids == [] then None
    else if kids[0].name == name then Some(0)
    else
      match FindIndex(kids[1..], name)
      case None => None
      case Some(k) => Some(k + 1)
  }

  /** `kids.find((c) => c.name === name)`: the first child with that name. */
  function FindChild(kids: seq<Node>, name: string): (r: Option<Node>)
    ensures r.None? <==> forall j :: 0 <= j < |kids| ==> kids[j].name != name
    ensures r.Some? ==> exists k :: 0 <= k < |kids| && kids[k] == r.value && r.value.name == name &&
                                   forall j :: 0 <= j < k ==> kids[j].name != name
  {
    match FindIndex(kids, name)
    case None => None
    case Some(k) => Some(kids[k])
  }

  /** `images[id]` for the id → URL object the image service returns. */
  function Lookup(images: map<string, string>, id: string): (r: Option<string>)
    ensures r.Some? <==> id in images
    ensures r.Some? ==> r.value == images[id]
  {
    if id in images then Some(images[id]) else None
  }

  /** The ids of a list of icons, in order. */
  function Ids(icons: seq<Icon>): (r: seq<string>)
    ensures |r| == |icons|
    ensures forall i :: 0 <= i < |icons| ==> r[i] == icons[i].id
  {
    seq(|icons|, i requires 0 <= i < |icons| => icons[i].id)
  }

  /** `icons.forEach((icon) => { icon.image = images[icon.id]; })`: every icon
      gets the URL the service gave for its id, and nothing else changes. */
  function Annotate(icons: seq<Icon>, images: map<string, string>): (r: seq<Icon>)
    ensures |r| == |icons|
    ensures forall i :: 0 <= i < |icons| ==> r[i] == icons[i].(image := Lookup(images, icons[i].id))
  {
    seq(|icons|, i requires 0 <= i < |icons| => icons[i].(image := Lookup(images, icons[i].id)))
  }
}
