/**
 * `loadMap` (index.js:42-117): resolves a configured map's `file` to raw
 * sprite data, either over HTTP or from the module's public folder, and
 * records the resolved file on the map descriptor in place.
 */
module Locator {
  import opened Common

  /** An HTTP response: its status code and its body. */
  datatype Response = Response(status: int, data: string)

  /**
   * What the loader reads from the outside world. The HTTP client, the file
   * system and glob expansion are given as functions of the URL or path.
   */
  datatype Env = Env(
    rootDir: string,                 // self.apos.rootDir
    prefix: string,                  // self.apos.prefix
    get: string -> Response,         // axios.get(url)
    fileExists: string -> bool,     // fs.existsSync(path)
    glob: string -> seq<string>,     // glob(path).sync()
    readFile: string -> string)      // readFile(path)

  /** The plain value of a map descriptor; `finalFile` is `undefined` until set. */
  datatype MapValue = MapValue(mapLabel: string, name: string, file: string, finalFile: Option<string>)

  /** A configured map, `{ label, name, file }` (`label` is `mapLabel` here), which `loadMap` updates in place. */
  class MapDescriptor {
    var mapLabel: string
    var name: string
    var file: string
    var finalFile: Option<string>

    constructor (mapLabel: string, name: string, file: string)
      ensures Value() == MapValue(mapLabel, name, file, None)
    {
      this.mapLabel := mapLabel;
      this.name := name;
      this.file := file;
      this.finalFile := None;
    }

    function Value(): MapValue
      reads this
    {
      MapValue(mapLabel, name, file, finalFile)
    }
  }

  /** What `loadMap` returns besides the map: the data, `null` when a local file is missing. */
  datatype Loaded = Loaded(result: Result<Option<string>>, updated: MapValue)

  const PublicDir: string := "/modules/@apostrophecms/svg-sprite/public/"
  const ServedDir: string := "/modules/@apostrophecms/my-svg-sprite/"

  /** The folder that local map files are relative to. */
  function Base(rootDir: string): string
  {
    rootDir + PublicDir
  }

  /** The URL under which a local map file is served. */
  function FinalFile(prefix: string, file: string): string
  {
    prefix + ServedDir + file
  }

  /** `s.substring(n)` for `n >= 0`: the empty string once `n` passes the end. */
  function Substring(s: string, n: nat): (r: string)
    ensures n <= |s| ==> s == s[..n] + r
    ensures n >= |s| ==> r == []
  {
    if n <= |s| then s[n..] else []
  }

  /** `c` is the letter `lower` in either case (ASCII only, as a non-Unicode regex compares). */
  predicate SameLetter(c: char, lower: char)
    requires 'a' <= lower <= 'z'
  {
    c == lower || c as int == lower as int - 32
  }

  /** The four characters at `i` spell `http` in any mix of cases. */
  predicate HttpAt(s: string, i: nat)
    requires i + 4 <= |s|
  {
    SameLetter(s[i], 'h') && SameLetter(s[i + 1], 't') &&
    SameLetter(s[i + 2], 't') && SameLetter(s[i + 3], 'p')
  }

  /** `/(http(s)?)/gi.test(s)` on a fresh regex, scanning from the start. */
  function ContainsHttp(s: string): bool
    decreases |s|
  {
    |s| >= 4 && (HttpAt(s, 0) || ContainsHttp(s[1..]))
  }

  /** The regex test holds exactly when `http`, in any case, occurs anywhere in the string. */
  lemma {:induction false} ContainsHttpIff(s: string)
    ensures ContainsHttp(s) <==> exists i: nat :: i + 4 <= |s| && HttpAt(s, i)
    decreases |s|
  {
    if |s| >= 4 {
      ContainsHttpIff(s[1..]);
      if ContainsHttp(s[1..]) {
        var i: nat :| i + 4 <= |s[1..]| && HttpAt(s[1..], i);
        assert HttpAt(s, i + 1);
      }
      if exists i: nat :: i + 4 <= |s| && HttpAt(s, i) {
        var i: nat :| i + 4 <= |s| && HttpAt(s, i);
        if i > 0 { assert HttpAt(s[1..], i - 1); }
      }
    }
  }

  /**
   * The result `loadMap` computes for a map whose value is `m`, and the value
   * the map has afterwards.
   */
  function Load(m: MapValue, env: Env): (r: Loaded)
    ensures r.updated.mapLabel == m.mapLabel && r.updated.name == m.name
    // remote: the map is left alone; 4xx is "notfound", every other non-200 is "error"
    ensures ContainsHttp(m.file) ==>
      var status := env.get(m.file).status;
      && r.updated == m
      && (r.result == Ok(Some(env.get(m.file).data)) <==> status == 200)
      && (r.result == Err(NotFound) <==> 400 <= status < 500)
      && (r.result == Err(Error) <==> !(400 <= status < 500) && status != 200)
    // local resolution never throws; a miss yields null data and leaves the map unchanged
    ensures !ContainsHttp(m.file) ==> r.result.Ok?
    ensures r.result == Ok(None) ==> r.updated == m
    // a local hit records where the file is served, built from the (possibly corrected) file
    ensures !ContainsHttp(m.file) && r.result.Ok? && r.result.value.Some? ==>
      r.updated.finalFile == Some(FinalFile(env.prefix, r.updated.file))
    // only a glob pattern corrects `file`
    ensures !('*' in Base(env.rootDir) + m.file) ==> r.updated.file == m.file
  {
    if ContainsHttp(m.file) then
      var response := env.get(m.file);
      if 400 <= response.status < 500 then Loaded(Err(NotFound), m)
      else if response.status != 200 then Loaded(Err(Error), m)
      else Loaded(Ok(Some(response.data)), m)
    else
      var base := Base(env.rootDir);
      var path := base + m.file;
      if '*' in path then
        var files := env.glob(path);
        if |files| > 0 then
          var file := Substring(files[0], |base|);
          Loaded(Ok(Some(env.readFile(files[0]))),
                 m.(file := file, finalFile := Some(FinalFile(env.prefix, file))))
        else Loaded(Ok(None), m)
      else if env.fileExists(path) then
        Loaded(Ok(Some(env.readFile(path))), m.(finalFile := Some(FinalFile(env.prefix, m.file))))
      else Loaded(Ok(None), m)
  }

  /**
   * A glob hit reads the first match and rewrites `file` to that match's path
   * relative to the public folder.
   */
  lemma GlobHitRewritesFile(m: MapValue, env: Env, rel: string)
    requires !ContainsHttp(m.file) && '*' in Base(env.rootDir) + m.file
    requires |env.glob(Base(env.rootDir) + m.file)| > 0
    requires env.glob(Base(env.rootDir) + m.file)[0] == Base(env.rootDir) + rel
    ensures Load(m, env) == Loaded(
      Ok(Some(env.readFile(Base(env.rootDir) + rel))),
      m.(file := rel, finalFile := Some(FinalFile(env.prefix, rel))))
  {
    var base := Base(env.rootDir);
    assert (base + rel)[|base|..] == rel;
  }

  /**
   * For a local file, `loadMap` yields null data exactly when the glob finds
   * nothing or the literal path does not exist, and then the map is left as
   * it was; a literal hit keeps `file` and only sets `finalFile`.
   */
  lemma LocalMissIffNoData(m: MapValue, env: Env)
    requires !ContainsHttp(m.file)
    ensures var path := Base(env.rootDir) + m.file;
      var miss := if '*' in path then |env.glob(path)| == 0 else !env.fileExists(path);
      && (Load(m, env).result == Ok(None) <==> miss)
      && (miss ==> Load(m, env).updated == m)
      && (!miss && '*' !in path ==>
            Load(m, env) == Loaded(Ok(Some(env.readFile(path))),
                                   m.(finalFile := Some(FinalFile(env.prefix, m.file)))))
  {
  }

  /** `loadMap(map)`: mutates `map.file` and `map.finalFile` as `Load` describes. */
  method LoadMap(desc: MapDescriptor, env: Env) returns (r: Result<Option<string>>)
    modifies desc
    ensures Loaded(r, desc.Value()) == Load(old(desc.Value()), env)
  {
    if ContainsHttp(desc.file) {
      var response := env.get(desc.file);
      if 400 <= response.status < 500 {
        return Err(NotFound);
      } else if response.status != 200 {
        return Err(Error);
      }
      return Ok(Some(response.data));
    } else {
      var base := Base(env.rootDir);
      var path := base + desc.file;
      if '*' in path {
        var files := env.glob(path);
        if |files| > 0 {
          var data := env.readFile(files[0]);
          var file := Substring(files[0], |base|);
          desc.file := file;
          desc.finalFile := Some(FinalFile(env.prefix, file));
          return Ok(Some(data));
        } else {
          return Ok(None);
        }
      } else {
        if env.fileExists(path) {
          desc.finalFile := Some(FinalFile(env.prefix, desc.file));
          var data := env.readFile(path);
          return Ok(Some(data));
        } else {
          return Ok(None);
        }
      }
    }
  }
}
