/** An in-memory file system: a map from names to shared byte buffers, and
    file handles that keep their own cursor over a shared buffer.  Several
    handles (and the map) may refer to the same `FileInner`; a write through
    one handle is seen by all of them, which the model gets for free from
    Dafny's heap. */
module MemFs {
  import opened Base

  const ISIZE_MIN: int := -0x8000_0000_0000_0000
  const ISIZE_MAX: int := 0x7FFF_FFFF_FFFF_FFFF

  function Min(a: nat, b: nat): nat { if a <= b then a else b }

  /** Seek origins with their signed offsets. */
  datatype Whence = Cur(offs: int) | Set(offs: int) | End(offs: int)

  // ---------------------------------------------------------------------------
  // Reading at a cursor, as pure functions of the contents and the cursor.

  /** `File::read` with a buffer of k bytes: the cursor is first clamped to the
      end of the data, then min(k, remaining) bytes are taken. */
  function ReadAt(data: seq<byte>, p: nat, k: nat): (r: (seq<byte>, nat))
    ensures var p0 := Min(p, |data|);
            |r.0| == Min(k, |data| - p0) && r.1 == p0 + |r.0| && r.1 <= |data|
    ensures r.0 == data[Min(p, |data|)..r.1]
  {
    var p0 := Min(p, |data|);
    var n := Min(k, |data| - p0);
    (data[p0..p0 + n], p0 + n)
  }

  /** `File::read_exact`: a full buffer, or "EOF" when nothing was left, or
      "unexpected EOF" when only part of it was (the cursor still moves past
      what was read). */
  function ReadExactAt(data: seq<byte>, p: nat, k: nat): (r: (Result<seq<byte>, string>, nat))
    ensures Min(p, |data|) <= r.1 <= |data|
    ensures r.0.Ok? <==> Min(p, |data|) + k <= |data|
    ensures r.0.Ok? ==> |r.0.value| == k && r.0.value == data[Min(p, |data|)..r.1]
    ensures r.0.Err? && Min(p, |data|) == |data| ==> r.0.error == "EOF" && r.1 == |data|
    ensures r.0.Err? && Min(p, |data|) < |data| ==> r.0.error == "unexpected EOF" && r.1 == |data|
  {
    var (bytes, p') := ReadAt(data, p, k);
    if |bytes| == k then (Ok(bytes), p')
    else if |bytes| == 0 then (Err("EOF"), p')
    else (Err("unexpected EOF"), p')
  }

  /** Whatever lies before the cursor, the next k bytes are what `read_exact`
      returns, and the cursor lands just after them. */
  lemma ReadExactAtSplit(pre: seq<byte>, mid: seq<byte>, post: seq<byte>)
    ensures ReadExactAt(pre + mid + post, |pre|, |mid|) == (Ok(mid), |pre| + |mid|)
  {
    var data := pre + mid + post;
    assert data[|pre|..|pre| + |mid|] == mid;
  }

  /** The new cursor of `File::seek`: the target computed from the origin and
      clamped to [0, size]. */
  function SeekTarget(p: nat, size: nat, w: Whence): int
  {
    var cur := Min(p, size);
    match w
    case Cur(offs) => cur + offs
    case Set(offs) => offs
    case End(offs) => size + offs
  }

  function Clamp(t: int, size: nat): (r: nat)
    ensures r <= size
    ensures 0 <= t <= size ==> r == t
    ensures t < 0 ==> r == 0
    ensures t > size ==> r == size
  {
    if t < 0 then 0 else if t > size then size else t
  }

  // ---------------------------------------------------------------------------
  // Files.

  /** The shared contents of one file. */
  class FileInner {
    var data: seq<byte>

    constructor()
      ensures data == []
    {
      data := [];
    }
  }

  /** A handle: shared contents, its own cursor, and whether it only appends. */
  class File {
    const inner: FileInner
    var p: nat
    const appendOnly: bool

    constructor(inner: FileInner, appendOnly: bool)
      ensures this.inner == inner && p == 0 && this.appendOnly == appendOnly
    {
      this.inner := inner;
      p := 0;
      this.appendOnly := appendOnly;
    }

    /** The current length of the shared contents. */
    function Size(): (n: nat)
      reads this, inner
      ensures n == |inner.data|
    {
      |inner.data|
    }

    /** Copies the next bytes into the front of buf and returns how many; the
        rest of buf is untouched. */
    method Read(buf: array<byte>) returns (n: nat)
      modifies this, buf
      ensures n <= buf.Length && buf[n..] == old(buf[n..])
      ensures (buf[..n], p) == ReadAt(inner.data, old(p), buf.Length)
      ensures inner.data == old(inner.data)
    {
      var q := Min(p, |inner.data|);
      p := q;
      n := Min(buf.Length, |inner.data| - q);
      if n > 0 {
        for i := 0 to n
          invariant buf[..i] == inner.data[q..q + i]
          invariant buf[i..] == old(buf[i..])
        {
          buf[i] := inner.data[q + i];
        }
        p := q + n;
      }
    }

    /** Fills buf completely, or reports which end of file was met. */
    method ReadExact(buf: array<byte>) returns (r: Result<(), string>)
      modifies this, buf
      ensures var (res, p') := ReadExactAt(inner.data, old(p), buf.Length);
              p == p' && r.Ok? == res.Ok? && (res.Ok? ==> buf[..] == res.value)
              && (res.Err? ==> r.error == res.error)
      ensures inner.data == old(inner.data)
    {
      var n := Read(buf);
      if n == buf.Length {
        assert buf[..] == buf[..n];
        r := Ok(());
      } else if n == 0 {
        r := Err("EOF");
      } else {
        r := Err("unexpected EOF");
      }
    }

    /** Adds buf at the end of the shared contents; the cursor does not move. */
    method Append(buf: seq<byte>)
      modifies inner
      ensures inner.data == old(inner.data) + buf
    {
      inner.data := inner.data + buf;
    }

    /** An append-only handle appends.  Any other handle clamps its cursor to
        the end and replaces everything from the cursor on by a non-empty buf
        (an empty buf changes no byte).  The overwrite copies buf over the
        whole tail, which needs buf to be exactly as long as the tail, unless
        buf or the tail is empty. */
    method Write(buf: seq<byte>)
      requires !appendOnly ==>
        (var p0 := Min(p, |inner.data|);
         |buf| == 0 || p0 == |inner.data| || |buf| == |inner.data| - p0)
      modifies this, inner
      ensures appendOnly ==> inner.data == old(inner.data) + buf && p == old(p)
      ensures !appendOnly ==>
        (var p0 := Min(old(p), |old(inner.data)|);
         p == p0 + |buf| &&
         inner.data == if |buf| == 0 then old(inner.data) else old(inner.data)[..p0] + buf)
    {
      if appendOnly {
        Append(buf);
      } else {
        p := Min(p, |inner.data|);
        var n := Min(|buf|, |inner.data| - p);
        if n > 0 {
          inner.data := inner.data[..p] + buf;
        }
        var m := |buf| - n;
        if m > 0 {
          inner.data := inner.data + buf[n..];
        }
        p := p + |buf|;
      }
    }

    /** Moves the cursor; the target is clamped to [0, size].  The sum of a
        cursor or size and an offset must fit in an isize. */
    method Seek(w: Whence) returns (r: nat)
      requires ISIZE_MIN <= w.offs <= ISIZE_MAX
      requires ISIZE_MIN <= SeekTarget(p, |inner.data|, w) <= ISIZE_MAX
      modifies this
      ensures r == p == Clamp(SeekTarget(old(p), |inner.data|, w), |inner.data|)
    {
      var size := |inner.data|;
      var t := SeekTarget(p, size, w);
      p := Clamp(t, size);
      r := p;
    }

    /** Cuts the contents to at most n bytes and puts the cursor at the end. */
    method Truncate(n: nat)
      modifies this, inner
      ensures var m := Min(|old(inner.data)|, n);
              inner.data == old(inner.data)[..m] && p == m
    {
      var m := Min(|inner.data|, n);
      inner.data := inner.data[..m];
      p := m;
    }
  }

  // ---------------------------------------------------------------------------
  // Listing helpers.

  predicate HasPrefix(s: seq<byte>, pre: seq<byte>)
  {
    |pre| <= |s| && s[..|pre|] == pre
  }

  const SLASH: byte := '/' as int

  /** The index of the first b in s, if any. */
  function Find(s: seq<byte>, b: byte): (r: Option<nat>)
    ensures r.Some? ==> r.value < |s| && s[r.value] == b
                        && forall i :: 0 <= i < r.value ==> s[i] != b
    ensures r.None? ==> forall i :: 0 <= i < |s| ==> s[i] != b
  {
    if |s| == 0 then None
    else if s[0] == b then Some(0)
    else match Find(s[1..], b)
      case None => None
      case Some(i) => Some(i + 1)
  }

  /** What a non-recursive listing shows for a name under path: the name up to
      and including the first '/' after path, or the whole name. */
  function Entry(name: seq<byte>, path: seq<byte>): seq<byte>
    requires HasPrefix(name, path)
  {
    match Find(name[|path|..], SLASH)
    case Some(i) => name[..|path| + i + 1]
    case None => name
  }

  /** An entry is the name itself when nothing after path is a '/', and is
      otherwise a directory: a prefix of the name ending in its first '/'
      after path. */
  lemma EntryShape(name: seq<byte>, path: seq<byte>)
    requires HasPrefix(name, path)
    ensures HasPrefix(name, Entry(name, path)) && HasPrefix(Entry(name, path), path)
    ensures var e := Entry(name, path);
            forall i :: |path| <= i < |e| - 1 ==> e[i] != SLASH
    ensures Entry(name, path) == name <==> forall i :: |path| <= i < |name| - 1 ==> name[i] != SLASH
    ensures Entry(name, path) != name ==> Entry(name, path)[|Entry(name, path)| - 1] == SLASH
  {
    var rest := name[|path|..];
    match Find(rest, SLASH)
    case Some(k) =>
      assert name[|path| + k] == rest[k];
      var e := name[..|path| + k + 1];
      assert e[..|path|] == path;
      forall i | |path| <= i < |e| - 1 ensures e[i] != SLASH {
        assert e[i] == rest[i - |path|];
      }
      if |path| + k + 1 == |name| {
        assert e == name;
      } else {
        assert |e| < |name|;
        assert name[|path| + k] == SLASH;
      }
    case None =>
      forall i | |path| <= i < |name| ensures name[i] != SLASH {
        assert name[i] == rest[i - |path|];
      }
  }

  /** The elements of a set of byte strings in ascending order. */
  predicate IsLeast(m: seq<byte>, s: set<seq<byte>>)
  {
    m in s && forall x :: x in s && x != m ==> LexLess(m, x)
  }

  lemma LeastUnique(s: set<seq<byte>>)
    ensures forall a, b :: IsLeast(a, s) && IsLeast(b, s) ==> a == b
  {
    forall a, b | IsLeast(a, s) && IsLeast(b, s) ensures a == b {
      if a != b {
        LexLessAsymmetric(a, b);
      }
    }
  }

  lemma LeastExists(s: set<seq<byte>>)
    requires s != {}
    ensures exists m :: IsLeast(m, s)
  {
    var m := LeastOf(s);
  }

  lemma {:induction false} LeastOf(s: set<seq<byte>>) returns (m: seq<byte>)
    requires s != {}
    ensures IsLeast(m, s)
    decreases |s|
  {
    var x :| x in s;
    if s == {x} {
      m := x;
    } else {
      var m' := LeastOf(s - {x});
      LexLessTotal(x, m');
      if LexLess(x, m') {
        m := x;
        forall y | y in s && y != x ensures LexLess(x, y) {
          if y != m' {
            LexLessTransitive(x, m', y);
          }
        }
      } else {
        m := m';
      }
    }
  }

  function SortedOf(s: set<seq<byte>>): (r: seq<seq<byte>>)
    ensures StrictlySorted(r) && |r| == |s|
    ensures forall x :: x in r <==> x in s
    decreases |s|
  {
    if s == {} then []
    else
      LeastExists(s);
      LeastUnique(s);
      var m :| IsLeast(m, s);
      var rest := SortedOf(s - {m});
      assert forall j :: 0 <= j < |rest| ==> LexLess(m, rest[j]) by {
        forall j | 0 <= j < |rest| ensures LexLess(m, rest[j]) {
          assert rest[j] in rest;
        }
      }
      [m] + rest
  }

  /** What `ls` shows for one name under path. */
  function Shown(name: seq<byte>, path: seq<byte>, rec: bool): seq<byte>
    requires HasPrefix(name, path)
  {
    if rec then name else Entry(name, path)
  }

  /** The i-th name is under path and shows as x. */
  predicate ShownAt(names: seq<seq<byte>>, i: int, path: seq<byte>, rec: bool, x: seq<byte>)
  {
    0 <= i < |names| && HasPrefix(names[i], path) && x == Shown(names[i], path, rec)
  }

  /** The values `ls` collects from the names in key order, before any sort. */
  function Collect(names: seq<seq<byte>>, path: seq<byte>, rec: bool): seq<seq<byte>>
  {
    if names == [] then []
    else
      var head := if HasPrefix(names[0], path) then [Shown(names[0], path, rec)] else [];
      head + Collect(names[1..], path, rec)
  }

  lemma {:induction false} CollectElements(names: seq<seq<byte>>, path: seq<byte>, rec: bool)
    ensures forall x :: x in Collect(names, path, rec) <==> exists i :: ShownAt(names, i, path, rec, x)
  {
    if names != [] {
      CollectElements(names[1..], path, rec);
      var c := Collect(names, path, rec);
      forall x | x in c ensures exists i :: ShownAt(names, i, path, rec, x) {
        if x !in Collect(names[1..], path, rec) {
          assert ShownAt(names, 0, path, rec, x);
        } else {
          var i :| ShownAt(names[1..], i, path, rec, x);
          assert names[i + 1] == names[1..][i];
          assert ShownAt(names, i + 1, path, rec, x);
        }
      }
      forall x | exists i :: ShownAt(names, i, path, rec, x) ensures x in c {
        var i :| ShownAt(names, i, path, rec, x);
        if i > 0 {
          assert names[1..][i - 1] == names[i];
          assert ShownAt(names[1..], i - 1, path, rec, x);
        }
      }
    }
  }

  lemma {:induction false} CollectRecIsFilter(names: seq<seq<byte>>, path: seq<byte>)
    requires StrictlySorted(names)
    ensures StrictlySorted(Collect(names, path, true))
  {
    if names != [] {
      var tail := names[1..];
      assert StrictlySorted(tail) by {
        forall i, j | 0 <= i < j < |tail| ensures LexLess(tail[i], tail[j]) {
          assert tail[i] == names[i + 1] && tail[j] == names[j + 1];
        }
      }
      CollectRecIsFilter(tail, path);
      CollectElements(tail, path, true);
      var c := Collect(tail, path, true);
      forall j | 0 <= j < |c| ensures LexLess(names[0], c[j]) {
        assert c[j] in c;
        var i :| ShownAt(tail, i, path, true, c[j]);
        assert names[i + 1] == tail[i];
      }
    }
  }

  /** `join`: the first part without its trailing slashes, one slash, and
      the second part without its leading slashes. */
  function Join(a: seq<byte>, b: seq<byte>): seq<byte>
  {
    TrimEnd(a) + [SLASH] + TrimStart(b)
  }

  /** a without its trailing slashes: a prefix of a, followed in a only by
      slashes, and not itself ending in one. */
  function TrimEnd(a: seq<byte>): (r: seq<byte>)
    ensures HasPrefix(a, r)
    ensures forall i :: |r| <= i < |a| ==> a[i] == SLASH
    ensures |r| == 0 || r[|r| - 1] != SLASH
  {
    if |a| > 0 && a[|a| - 1] == SLASH then TrimEnd(a[..|a| - 1]) else a
  }

  /** b without its leading slashes: a suffix of b, preceded in b only by
      slashes, and not itself starting with one. */
  function TrimStart(b: seq<byte>): (r: seq<byte>)
    ensures |r| <= |b| && b[|b| - |r|..] == r
    ensures forall i :: 0 <= i < |b| - |r| ==> b[i] == SLASH
    ensures |r| == 0 || r[0] != SLASH
  {
    if |b| > 0 && b[0] == SLASH then TrimStart(b[1..]) else b
  }

  /** Joining never doubles the separator: exactly one slash stands between
      the two parts, and joining with already trimmed parts keeps them whole. */
  lemma JoinTrimmed(a: seq<byte>, b: seq<byte>)
    requires |a| == 0 || a[|a| - 1] != SLASH
    requires |b| == 0 || b[0] != SLASH
    ensures Join(a, b) == a + [SLASH] + b
  {
  }

  /** Extra slashes at the seam make no difference. */
  lemma JoinIgnoresExtraSlashes(a: seq<byte>, b: seq<byte>)
    ensures Join(a + [SLASH], b) == Join(a, b)
    ensures Join(a, [SLASH] + b) == Join(a, b)
  {
    TrimEndSlash(a);
    TrimStartSlash(b);
  }

  lemma TrimEndSlash(a: seq<byte>)
    ensures TrimEnd(a + [SLASH]) == TrimEnd(a)
  {
    var a' := a + [SLASH];
    assert a'[|a'| - 1] == SLASH;
    assert a'[..|a'| - 1] == a;
  }

  lemma TrimStartSlash(b: seq<byte>)
    ensures TrimStart([SLASH] + b) == TrimStart(b)
  {
    var b' := [SLASH] + b;
    assert b'[0] == SLASH;
    assert b'[1..] == b;
  }

  // ---------------------------------------------------------------------------
  // The file system.

  class FsImpl {
    var files: map<seq<byte>, FileInner>

    constructor()
      ensures files == map[]
    {
      files := map[];
    }

    /** A new handle at offset 0 on an existing file. */
    method Open(name: seq<byte>, appendOnly: bool) returns (r: Result<File, string>)
      ensures r.Ok? <==> name in files
      ensures r.Ok? ==> fresh(r.value) && r.value.inner == files[name]
                        && r.value.p == 0 && r.value.appendOnly == appendOnly
      ensures r.Err? ==> r.error == "no such file"
    {
      if name in files {
        var f := new File(files[name], appendOnly);
        r := Ok(f);
      } else {
        r := Err("no such file");
      }
    }

    /** A new empty file under name, unless one exists and overwrite is off.
        Overwriting binds the name to fresh contents; handles already open on
        the old contents keep them. */
    method Create(name: seq<byte>, overwrite: bool) returns (r: Result<File, string>)
      modifies this
      ensures r.Ok? <==> (name !in old(files) || overwrite)
      ensures r.Ok? ==> fresh(r.value) && fresh(r.value.inner) && r.value.inner.data == []
                        && files == old(files)[name := r.value.inner]
                        && r.value.p == 0 && !r.value.appendOnly
      ensures r.Err? ==> r.error == "file existed" && files == old(files)
    {
      if name !in files || overwrite {
        var data := new FileInner();
        files := files[name := data];
        var f := new File(data, false);
        r := Ok(f);
      } else {
        r := Err("file existed");
      }
    }

    predicate Exist(name: seq<byte>)
      reads this, files.Values
      ensures Exist(name) <==> name in Contents()
    {
      name in files
    }

    /** What each name holds. */
    ghost function Contents(): map<seq<byte>, seq<byte>>
      reads this, files.Values
    {
      map n | n in files :: files[n].data
    }

    /** With rec, every name under path, in key order.  Without, the distinct
        entries directly under path (files, and directories as a prefix
        ending in '/'), sorted. */
    method Ls(path: seq<byte>, rec: bool) returns (ents: seq<seq<byte>>)
      ensures rec ==> ents == Collect(SortedOf(files.Keys), path, true)
      ensures !rec ==> ents == SortedOf(set name | name in files && HasPrefix(name, path) :: Entry(name, path))
    {
      var names := SortedOf(files.Keys);
      ents := [];
      for i := 0 to |names|
        invariant ents == Collect(names[..i], path, rec)
      {
        CollectSnoc(names[..i], names[i], path, rec);
        assert names[..i + 1] == names[..i] + [names[i]];
        if HasPrefix(names[i], path) {
          ents := ents + [Shown(names[i], path, rec)];
        }
      }
      assert names[..|names|] == names;
      if !rec {
        var found := set i | 0 <= i < |ents| :: ents[i];
        CollectEntries(names, files.Keys, path);
        ents := SortedOf(found);
      }
    }

    /** Removes name (if present). */
    method Rm(name: seq<byte>)
      modifies this
      ensures files == old(files) - {name}
    {
      files := files - {name};
    }

    /** A recursive listing is exactly the names under path, ascending. */
    lemma LsRecMeaning(path: seq<byte>)
      ensures var ents := Collect(SortedOf(files.Keys), path, true);
              StrictlySorted(ents) && forall x :: x in ents <==> x in files && HasPrefix(x, path)
    {
      var names := SortedOf(files.Keys);
      CollectRecIsFilter(names, path);
      CollectElements(names, path, true);
      var ents := Collect(names, path, true);
      forall x ensures x in ents <==> x in files && HasPrefix(x, path) {
        if x in ents {
          var i :| ShownAt(names, i, path, true, x);
          assert names[i] in names;
        }
        if x in files && HasPrefix(x, path) {
          assert x in names;
          var i :| 0 <= i < |names| && names[i] == x;
          assert ShownAt(names, i, path, true, x);
        }
      }
    }
  }

  /** Collected over all names of a set, the entries of a non-recursive
      listing are the entries of the names under path. */
  lemma CollectEntries(names: seq<seq<byte>>, keys: set<seq<byte>>, path: seq<byte>)
    requires forall x :: x in names <==> x in keys
    ensures var c := Collect(names, path, false);
            (set i | 0 <= i < |c| :: c[i]) == set name | name in keys && HasPrefix(name, path) :: Entry(name, path)
  {
    var c := Collect(names, path, false);
    CollectElements(names, path, false);
    var found := set i | 0 <= i < |c| :: c[i];
    var want := set name | name in keys && HasPrefix(name, path) :: Entry(name, path);
    forall x | x in found ensures x in want {
      var k :| 0 <= k < |c| && x == c[k];
      assert c[k] in c;
      var i :| ShownAt(names, i, path, false, x);
      assert names[i] in names;
    }
    forall name | name in keys && HasPrefix(name, path) ensures Entry(name, path) in found {
      assert name in names;
      var i :| 0 <= i < |names| && names[i] == name;
      assert ShownAt(names, i, path, false, Entry(name, path));
      assert Entry(name, path) in c;
      var k :| 0 <= k < |c| && c[k] == Entry(name, path);
    }
  }

  lemma {:induction false} CollectSnoc(names: seq<seq<byte>>, x: seq<byte>, path: seq<byte>, rec: bool)
    ensures Collect(names + [x], path, rec) ==
      Collect(names, path, rec) + (if HasPrefix(x, path) then [Shown(x, path, rec)] else [])
    decreases |names|
  {
    var last := if HasPrefix(x, path) then [Shown(x, path, rec)] else [];
    if names == [] {
      assert Collect([x], path, rec) == last + Collect([], path, rec);
    } else {
      var s := names + [x];
      assert s[0] == names[0] && s[1..] == names[1..] + [x];
      CollectSnoc(names[1..], x, path, rec);
      var head := if HasPrefix(names[0], path) then [Shown(names[0], path, rec)] else [];
      calc {
        Collect(s, path, rec);
        head + Collect(names[1..] + [x], path, rec);
        head + (Collect(names[1..], path, rec) + last);
        (head + Collect(names[1..], path, rec)) + last;
        Collect(names, path, rec) + last;
      }
    }
  }
}
