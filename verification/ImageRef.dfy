/**
 * Normalising a short image reference into a qualified one.
 */
module ImageRef {
  import opened Sequences

  function Before(s: string, c: char): string {
    s[..Find(s, c)]
  }

  /** The text before the first slash, without anything from its first colon on. */
  function HostPart(image: string): string {
    Before(Before(image, '/'), ':')
  }

  predicate HasRegistry(image: string) {
    '.' in HostPart(image)
  }

  /** The text after the last colon. */
  function AfterColon(s: string): string {
    s[RFind(s, ':') + 1..]
  }

  function Qualified(name: string, tag: string): string {
    (if '/' in name then "docker.io/" else "docker.io/library/") + name + ":" + tag
  }

  function Normalize(image: string): string {
    if HasRegistry(image) then
      if ':' in image then image else image + ":latest"
    else
      var k := RFind(image, ':');
      if k >= 0 then Qualified(image[..k], image[k + 1..]) else Qualified(image, "latest")
  }

  /** A registry is a dot before the first slash and the first colon. */
  lemma RegistryExactly(image: string)
    ensures HasRegistry(image) <==>
              exists i :: 0 <= i < |image| && image[i] == '.' &&
                          forall j :: 0 <= j < i ==> image[j] != '/' && image[j] != ':'
  {
    var first := Before(image, '/');
    var host := Before(first, ':');
    assert host == image[..|host|];
    if i :| 0 <= i < |image| && image[i] == '.' && forall j :: 0 <= j < i ==> image[j] != '/' && image[j] != ':' {
      assert |first| > i;
      assert first[i] == '.' && |host| > i;
      assert host[i] == '.';
    }
    if '.' in host {
      var i :| 0 <= i < |host| && host[i] == '.';
      assert image[i] == '.';
    }
  }

  // ---- Its shape ----

  lemma DockerHost(s: string)
    requires "docker.io/" <= s
    ensures HasRegistry(s)
  {
    var host := "docker.io";
    assert s == host + ['/'] + s[10..];
    FindAt(host, '/', s[10..]);
    assert Before(s, '/') == host;
    NoColonWhole(host);
    assert host[6] == '.';
  }

  lemma {:induction false} NoColonWhole(s: string)
    requires ':' !in s
    ensures Before(s, ':') == s
  {
    assert Find(s, ':') == |s|;
  }

  /** Appending a tag does not change the host part of a reference without a colon. */
  lemma HostOfTagged(image: string)
    requires ':' !in image && HasRegistry(image)
    ensures HasRegistry(image + ":latest")
  {
    var s := image + ":latest";
    var k := Find(image, '/');
    if k < |image| {
      assert image == image[..k] + ['/'] + image[k + 1..];
      assert s == image[..k] + ['/'] + (image[k + 1..] + ":latest");
      FindAt(image[..k], '/', image[k + 1..] + ":latest");
      assert Before(s, '/') == Before(image, '/');
    } else {
      HostOfSingle(image);
    }
  }

  lemma HostOfSingle(image: string)
    requires ':' !in image && '/' !in image
    ensures HostPart(image + ":latest") == image && HostPart(image) == image
  {
    var s := image + ":latest";
    assert Find(s, '/') == |s| by {
      assert forall i :: 0 <= i < |s| ==> s[i] != '/' by {
        assert forall i :: 0 <= i < |":latest"| ==> ":latest"[i] != '/';
      }
    }
    assert Before(s, '/') == s;
    assert s == image + [':'] + "latest";
    FindAt(image, ':', "latest");
    assert Find(image, '/') == |image|;
    assert Before(image, '/') == image;
    NoColonWhole(image);
  }

  lemma QualifiedShape(name: string, tag: string)
    ensures HasRegistry(Qualified(name, tag)) && ':' in Qualified(name, tag)
  {
    hide HasRegistry;
    var s := Qualified(name, tag);
    assert "docker.io/" <= s;
    DockerHost(s);
    assert s[|s| - |tag| - 1] == ':';
  }

  /** The output always names a registry with a dot and contains a colon. */
  lemma NormalizedShape(image: string)
    ensures HasRegistry(Normalize(image)) && ':' in Normalize(image)
  {
    hide HasRegistry, Qualified;
    if HasRegistry(image) {
      if ':' !in image {
        HostOfTagged(image);
        assert (image + ":latest")[|image|] == ':';
      }
    } else {
      var k := RFind(image, ':');
      if k >= 0 {
        QualifiedShape(image[..k], image[k + 1..]);
      } else {
        QualifiedShape(image, "latest");
      }
    }
  }

  /** The references left alone are exactly those with a dotted host part and a colon. */
  lemma FixedPoints(image: string)
    ensures Normalize(image) == image <==> HasRegistry(image) && ':' in image
  {
    hide HasRegistry, Qualified;
    NormalizedShape(image);
  }

  /** Normalising twice is normalising once, for every string. */
  lemma Idempotent(image: string)
    ensures Normalize(Normalize(image)) == Normalize(image)
  {
    hide Normalize, HasRegistry;
    NormalizedShape(image);
    FixedPoints(Normalize(image));
  }

  // ---- Its tag ----

  lemma AfterColonAt(front: string, tag: string)
    requires ':' !in tag
    ensures AfterColon(front + ":" + tag) == tag
  {
    RFindAt(front, ':', tag);
  }

  /** Without a registry, the text after the last colon stays what it was. */
  lemma TagPreserved(image: string)
    requires !HasRegistry(image) && ':' in image
    ensures AfterColon(Normalize(image)) == AfterColon(image)
  {
    hide HasRegistry;
    var k := RFind(image, ':');
    assert k >= 0;
    var name, tag := image[..k], image[k + 1..];
    var front := (if '/' in name then "docker.io/" else "docker.io/library/") + name;
    assert Qualified(name, tag) == front + ":" + tag;
    AfterColonAt(front, tag);
  }

  /** The path between the registry `docker.io/` and the last colon. */
  function Repository(s: string): string
    requires |s| >= 10
  {
    var k := RFind(s, ':');
    if k < 10 then s[10..] else s[10..k]
  }

  lemma DockerParts(path: string, tag: string)
    requires ':' !in tag
    ensures var s := "docker.io/" + path + ":" + tag;
            "docker.io/" <= s && AfterColon(s) == tag && Repository(s) == path
  {
    var host := "docker.io/";
    var front := host + path;
    var s := front + ":" + tag;
    assert |host| == 10;
    hide RFind;
    RFindAt(front, ':', tag);
    assert s[10..|front|] == path;
  }

  lemma QualifiedParts(name: string, tag: string)
    requires ':' !in tag
    ensures var s := Qualified(name, tag);
            && "docker.io/" <= s && AfterColon(s) == tag
            && Repository(s) == if '/' in name then name else "library/" + name
  {
    hide Repository, AfterColon, RFind;
    var path := if '/' in name then name else "library/" + name;
    assert "docker.io/library/" == "docker.io/" + "library/";
    assert Qualified(name, tag) == "docker.io/" + path + ":" + tag;
    DockerParts(path, tag);
  }

  /**
   * Read back by its separators, a reference without a registry becomes the Docker registry, its own
   * path (below `library/` if it is a bare name) and its own tag.
   */
  lemma RepositoryKept(name: string, tag: string)
    requires ':' !in tag && !HasRegistry(name + ":" + tag)
    ensures var s := Normalize(name + ":" + tag);
            && "docker.io/" <= s && AfterColon(s) == tag
            && Repository(s) == if '/' in name then name else "library/" + name
  {
    hide HasRegistry, Qualified, Repository, AfterColon;
    var image := name + ":" + tag;
    RFindAt(name, ':', tag);
    assert image[..|name|] == name && image[|name| + 1..] == tag;
    QualifiedParts(name, tag);
  }

  /** And without a colon, its tag is `latest`. */
  lemma UntaggedRepository(name: string)
    requires ':' !in name && !HasRegistry(name)
    ensures var s := Normalize(name);
            && "docker.io/" <= s && AfterColon(s) == "latest"
            && Repository(s) == if '/' in name then name else "library/" + name
  {
    hide HasRegistry, Qualified, Repository, AfterColon;
    assert RFind(name, ':') == -1;
    assert ':' !in "latest";
    QualifiedParts(name, "latest");
  }

  /** With a registry only a missing tag is added. */
  lemma RegistryKept(image: string)
    requires HasRegistry(image)
    ensures Normalize(image) == if ':' in image then image else image + ":latest"
  {
  }

  /** A colon in the last path segment, where a tag belongs. */
  predicate Tagged(s: string) {
    ':' in s && '/' !in AfterColon(s)
  }

  /**
   * The output carries a tag exactly when the input has one or has no colon at all: a registry or
   * host with a port hides the missing tag.
   */
  lemma TaggedExactly(image: string)
    ensures Tagged(Normalize(image)) <==> ':' !in image || Tagged(image)
  {
    hide HasRegistry, Qualified;
    NormalizedShape(image);
    if ':' in image {
      if !HasRegistry(image) {
        TagPreserved(image);
      }
    } else {
      LatestTag(image);
    }
  }

  /** Splitting a reference of the form host:port/path, whose path has no colon. */
  lemma PortShape(host: string, port: string, path: string)
    requires '/' !in host && '/' !in port && ':' !in host && ':' !in port && ':' !in path
    ensures var image := host + [':'] + port + ['/'] + path;
            HostPart(image) == host && AfterColon(image) == port + ['/'] + path
  {
    var front := host + [':'] + port;
    var image := front + ['/'] + path;
    FindAt(front, '/', path);
    assert Before(image, '/') == front;
    FindAt(host, ':', port);
    assert image == host + [':'] + (port + ['/'] + path);
    RFindAt(host, ':', port + ['/'] + path);
  }

  /** A registry port does hide a missing tag: such a reference is left as it is, without one. */
  lemma PortHidesTag(host: string, port: string, path: string)
    requires '/' !in host && '/' !in port && ':' !in host && ':' !in port && ':' !in path && '.' in host
    ensures var image := host + [':'] + port + ['/'] + path;
            Normalize(image) == image && !Tagged(image)
  {
    hide Find, RFind;
    var image := host + [':'] + port + ['/'] + path;
    PortShape(host, port, path);
    assert image[|host|] == ':' && (port + ['/'] + path)[|port|] == '/';
  }

  lemma PortExample()
    ensures Normalize("r.io:5000/app") == "r.io:5000/app" && !Tagged("r.io:5000/app")
  {
    hide Normalize, Tagged;
    assert "r.io"[1] == '.';
    assert "r.io:5000/app" == "r.io" + [':'] + "5000" + ['/'] + "app";
    PortHidesTag("r.io", "5000", "app");
  }

  lemma LatestTag(image: string)
    requires ':' !in image
    ensures AfterColon(Normalize(image)) == "latest" && '/' !in "latest"
  {
    hide HasRegistry;
    assert RFind(image, ':') == -1;
    if HasRegistry(image) {
      assert image + ":latest" == image + ":" + "latest";
      AfterColonAt(image, "latest");
    } else {
      var front := (if '/' in image then "docker.io/" else "docker.io/library/") + image;
      assert Qualified(image, "latest") == front + ":" + "latest";
      AfterColonAt(front, "latest");
    }
  }
}
