/** Resources (resource.cpp) and the resource manager (resource_manager.cpp):
    a path with a type and a root key, and the map from root keys to root
    directories. The singleton becomes an explicit value; QDir::rootPath() is a
    parameter of its construction. */
module Resources {
  import opened Common

  /** resource_root_key_t without its size sentinel, which is never stored. */
  datatype RootKey = RootKeyRoot | RootKeyRemote

  /** resource_type_t without its size sentinel. */
  datatype ResourceType = FileType | DirectoryType

  datatype Resource = Resource(path: string, kind: ResourceType, root: RootKey)

  /** Resource::Resource; the root key defaults to RESOURCE_KEY_ROOT. The
      accessors path(), resourceType() and rootKey() are the fields. */
  function NewResource(path: string, kind: ResourceType, root: RootKey := RootKeyRoot): (r: Resource)
    ensures r.path == path && r.kind == kind && r.root == root
  {
    Resource(path, kind, root)
  }

  /** Leaving the root key out gives RESOURCE_KEY_ROOT. */
  lemma DefaultRoot(path: string, kind: ResourceType)
    ensures NewResource(path, kind).root == RootKeyRoot
    ensures NewResource(path, kind) == NewResource(path, kind, RootKeyRoot)
  {
  }

  /** d_resource_map. */
  datatype ResourceManager = ResourceManager(paths: map<RootKey, string>)

  /** ResourceManager::ResourceManager: only the root key is seeded, with the
      file system root. */
  function NewManager(rootPath: string): (m: ResourceManager)
    ensures RootKeyRoot in m.paths && m.paths[RootKeyRoot] == rootPath
    ensures RootKeyRemote !in m.paths
  {
    ResourceManager(map[RootKeyRoot := rootPath])
  }

  /** ResourceManager::getResourcePath: null (None) for a key without a path. */
  function GetResourcePath(m: ResourceManager, key: RootKey): (r: Option<string>)
    ensures r.Some? <==> key in m.paths
    ensures r.Some? ==> r.value == m.paths[key]
  {
    if key in m.paths then Some(m.paths[key]) else None
  }

  /** ResourceManager::setResourcePath: insert or overwrite. */
  function SetResourcePath(m: ResourceManager, key: RootKey, path: string): (r: ResourceManager)
    ensures r.paths.Keys == m.paths.Keys + {key}
  {
    ResourceManager(m.paths[key := path])
  }

  /** A fresh manager knows the root and not the remote. */
  lemma FreshManager(rootPath: string)
    ensures GetResourcePath(NewManager(rootPath), RootKeyRoot) == Some(rootPath)
    ensures GetResourcePath(NewManager(rootPath), RootKeyRemote) == None
  {
  }

  /** Reading a key back after setting it gives the path set. */
  lemma GetAfterSet(m: ResourceManager, key: RootKey, path: string)
    ensures GetResourcePath(SetResourcePath(m, key, path), key) == Some(path)
  {
  }

  /** Setting one key leaves the other key's entry alone. */
  lemma SetLeavesOtherKey(m: ResourceManager, key: RootKey, other: RootKey, path: string)
    requires other != key
    ensures GetResourcePath(SetResourcePath(m, key, path), other) == GetResourcePath(m, other)
  {
  }

  /** Setting the same path twice is setting it once. */
  lemma SetIdempotent(m: ResourceManager, key: RootKey, path: string)
    ensures SetResourcePath(SetResourcePath(m, key, path), key, path) == SetResourcePath(m, key, path)
  {
  }
}
