/** The store contract a resource carries (nauti-fabric/src/store.rs). */
module Store {
  import opened FabricTypes

  const ADAPTER := "fabric-store"

  datatype StoreKind = Bind | VirtioFs | Nfs

  datatype StoreResolution = StoreResolution(
    resourceId: string,
    kind: StoreKind,
    path: string,
    tag: string,
    socket: Option<string>,
    nfsExport: Option<string>)

  function ParseKind(raw: string): Result<StoreKind, FabricError> {
    if raw == "bind" then Ok(Bind)
    else if raw == "virtio-fs" || raw == "virtiofs" || raw == "fs" then Ok(VirtioFs)
    else if raw == "nfs" then Ok(Nfs)
    else Err(MissingResourceAttribute("store.kind (unknown " + raw + "; expected bind|virtio-fs|nfs)"))
  }

  /** Reads the store contract off a resource, or says which part is missing. */
  function FromResource(resource: Resource): (r: Result<StoreResolution, FabricError>)
    ensures r.Ok? ==>
      && resource.kind == Storage
      && r.value.resourceId == resource.id
      && (r.value.kind == Nfs ==> r.value.nfsExport.Some?)
      && (r.value.kind == VirtioFs ==> r.value.socket.Some?)
  {
    var attributes := resource.attributes;
    if resource.kind != Storage then
      Err(IncompatibleResourceKind(ADAPTER, Storage, resource.kind))
    else
      match ParseKind(GetOr(attributes, "store.kind", "bind"))
      case Err(error) => Err(error)
      case Ok(kind) =>
        if "store.path" !in attributes then Err(MissingResourceAttribute("store.path"))
        else
          var socket := Get(attributes, "store.socket");
          var nfsExport := Get(attributes, "store.nfs_export");
          if kind == Nfs && nfsExport.None? then Err(MissingResourceAttribute("store.nfs_export"))
          else if kind == VirtioFs && socket.None? then Err(MissingResourceAttribute("store.socket"))
          else Ok(StoreResolution(resource.id, kind, attributes["store.path"],
                                  GetOr(attributes, "store.tag", "nauti"), socket, nfsExport))
  }

  /** The `--fs` argument of a virtio-fs store; no other kind has one. */
  function VirtioFsSpec(store: StoreResolution): Option<string> {
    match store.socket
    case None => None
    case Some(socket) =>
      if store.kind != VirtioFs then None else Some("tag=" + store.tag + ",socket=" + socket)
  }

  /** The path a job opens: the export of an NFS store, the directory of any other. */
  function JobPath(store: StoreResolution): string {
    if store.kind == Nfs then
      match store.nfsExport
      case Some(e) => e
      case None => store.path
    else store.path
  }

  function KindName(kind: StoreKind): string {
    match kind
    case Bind => "bind"
    case VirtioFs => "virtio-fs"
    case Nfs => "nfs"
  }

  // ------------------------------------------------------------ what it means

  /** The kind a resource asks for, a bind unless it says otherwise. */
  function Asked(r: Resource): string {
    if "store.kind" in r.attributes then r.attributes["store.kind"] else "bind"
  }

  /** A resource resolves exactly when it is storage of a known kind with its path and
      what its kind needs besides, and each part comes from its own attribute. */
  lemma ResolvesExactly(r: Resource)
    ensures var a := r.attributes;
            && (FromResource(r).Ok? <==>
                  && r.kind == Storage && Asked(r) in {"bind", "virtio-fs", "virtiofs", "fs", "nfs"}
                  && "store.path" in a
                  && (Asked(r) == "nfs" ==> "store.nfs_export" in a)
                  && (Asked(r) in {"virtio-fs", "virtiofs", "fs"} ==> "store.socket" in a))
            && (FromResource(r).Ok? ==>
                  var store := FromResource(r).value;
                  && store.resourceId == r.id && store.path == a["store.path"]
                  && (store.kind == Bind <==> Asked(r) == "bind") && (store.kind == Nfs <==> Asked(r) == "nfs")
                  && store.tag == (if "store.tag" in a then a["store.tag"] else "nauti")
                  && (store.socket.Some? <==> "store.socket" in a)
                  && (store.socket.Some? ==> store.socket.value == a["store.socket"])
                  && (store.nfsExport.Some? <==> "store.nfs_export" in a)
                  && (store.nfsExport.Some? ==> store.nfsExport.value == a["store.nfs_export"]))
  {
  }

  /** Which part is missing, in the order the parts are looked at. */
  lemma RefusesByTheFirstFault(r: Resource)
    requires FromResource(r).Err?
    ensures var a := r.attributes;
            FromResource(r).error
            == if r.kind != Storage then IncompatibleResourceKind("fabric-store", Storage, r.kind)
               else if Asked(r) !in {"bind", "virtio-fs", "virtiofs", "fs", "nfs"} then
                 MissingResourceAttribute("store.kind (unknown " + Asked(r) + "; expected bind|virtio-fs|nfs)")
               else if "store.path" !in a then MissingResourceAttribute("store.path")
               else if Asked(r) == "nfs" then MissingResourceAttribute("store.nfs_export")
               else MissingResourceAttribute("store.socket")
  {
  }

  /** What a job on the node opens and what the VMM is told, from the attributes alone: a
      bind and a virtio-fs store of one path are the same path to a job. */
  lemma JobInput(r: Resource)
    requires FromResource(r).Ok?
    ensures var a, store := r.attributes, FromResource(r).value;
            && JobPath(store) == (if Asked(r) == "nfs" then a["store.nfs_export"] else a["store.path"])
            && (VirtioFsSpec(store).Some? <==> Asked(r) in {"virtio-fs", "virtiofs", "fs"})
            && (VirtioFsSpec(store).Some? ==>
                  VirtioFsSpec(store).value
                  == "tag=" + (if "store.tag" in a then a["store.tag"] else "nauti") + ",socket=" + a["store.socket"])
            && KindName(store.kind) == (if Asked(r) in {"virtiofs", "fs"} then "virtio-fs" else Asked(r))
  {
    ResolvesExactly(r);
  }
}
