/**
 * The files the Windows EAL names: the shared configuration, the
 * file-backed arrays, the multi-process socket, the hugepage information
 * and the hugepage map files, each a format filled into a bounded buffer,
 * and the runtime directory that holds them.
 */
module EalFilesystem {
  import opened CTypes
  import opened CStrings

  /** `PATH_MAX`, defined as the Windows runtime's `_MAX_PATH`. */
  const PATH_MAX: nat := 260

  /** `HUGEFILE_PREFIX_DEFAULT`: the file prefix when none is given. */
  const HUGEFILE_PREFIX_DEFAULT: string := "rte"

  /** `MP_SOCKET_FNAME`. */
  const MP_SOCKET_FNAME: string := "mp_socket"

  // -------------------------------------------------------------------
  // Path formats
  // -------------------------------------------------------------------

  /**
   * `eal_runtime_config_path`: `<temp dir>\<prefix>.config` printed into a
   * PATH_MAX buffer with size PATH_MAX - 1, so at most PATH_MAX - 2
   * characters survive.
   */
  function RuntimeConfigPath(tempDir: string, prefix: string): (p: string)
    ensures |p| <= PATH_MAX - 2
    ensures p <= tempDir + "\\" + prefix + ".config"
    ensures |tempDir + "\\" + prefix + ".config"| <= PATH_MAX - 2 ==> p == tempDir + "\\" + prefix + ".config"
  {
    Truncate(tempDir + "\\" + prefix + ".config", PATH_MAX - 1)
  }

  /** `eal_get_fbarray_path`: `<runtime dir>\fbarray_<name>` in a buffer of `buflen`. */
  function FbarrayPath(buflen: nat, runtimeDir: string, name: string): (p: string)
    ensures buflen > 0 ==> |p| < buflen
    ensures p <= runtimeDir + "\\fbarray_" + name
    ensures |runtimeDir + "\\fbarray_" + name| < buflen ==> p == runtimeDir + "\\fbarray_" + name
  {
    Truncate(runtimeDir + "\\fbarray_" + name, buflen)
  }

  /** `eal_mp_socket_path`: `<runtime dir>/mp_socket`, with a forward slash. */
  function MpSocketPath(runtimeDir: string): (p: string)
    ensures |p| <= PATH_MAX - 2
    ensures p <= runtimeDir + "/" + MP_SOCKET_FNAME
  {
    Truncate(runtimeDir + "/" + MP_SOCKET_FNAME, PATH_MAX - 1)
  }

  /** `eal_hugepage_info_path`: `<system dir>\.<prefix>_hugepage_info`. */
  function HugepageInfoPath(sysDir: string, prefix: string): (p: string)
    ensures |p| <= PATH_MAX - 2
    ensures p <= sysDir + "\\." + prefix + "_hugepage_info"
  {
    Truncate(sysDir + "\\." + prefix + "_hugepage_info", PATH_MAX - 1)
  }

  /**
   * `eal_get_hugefile_path`: `<dir>/<prefix>map_<id>` in a buffer of
   * `buflen`, whose last byte is then forced to NUL. The source writes
   * `buffer[buflen - 1]`, so it needs a non-empty buffer.
   */
  function HugefilePath(buflen: nat, hugeDir: string, prefix: string, id: int): (p: string)
    requires buflen > 0
    ensures |p| < buflen
    ensures p <= hugeDir + "/" + prefix + "map_" + FormatInt(id, 0)
  {
    var printed := Truncate(hugeDir + "/" + prefix + "map_" + FormatInt(id, 0), buflen);
    // the forced terminator lands at or after the one snprintf wrote
    if |printed| < buflen - 1 then printed else printed[..buflen - 1]
  }

  // -------------------------------------------------------------------
  // Partners: what keeps processes and files apart
  // -------------------------------------------------------------------

  /**
   * Two prefixes name two configuration files: processes started with
   * different file prefixes never share a configuration, as long as the
   * paths fit.
   */
  lemma ConfigPathsSeparatePrefixes(tempDir: string, p1: string, p2: string)
    requires p1 != p2
    requires |tempDir| + |p1| + 8 <= PATH_MAX - 2 && |tempDir| + |p2| + 8 <= PATH_MAX - 2
    ensures RuntimeConfigPath(tempDir, p1) != RuntimeConfigPath(tempDir, p2)
  {
    if RuntimeConfigPath(tempDir, p1) == RuntimeConfigPath(tempDir, p2) {
      assert tempDir + "\\" + p1 + ".config" == (tempDir + "\\") + p1 + ".config";
      assert tempDir + "\\" + p2 + ".config" == (tempDir + "\\") + p2 + ".config";
      SameFrameSameMiddle(tempDir + "\\", p1, p2, ".config");
    }
  }

  /** Two prefixes name two hugepage information files, as long as the paths fit. */
  lemma HugepageInfoPathsSeparatePrefixes(sysDir: string, p1: string, p2: string)
    requires p1 != p2
    requires |sysDir| + |p1| + 16 <= PATH_MAX - 2 && |sysDir| + |p2| + 16 <= PATH_MAX - 2
    ensures HugepageInfoPath(sysDir, p1) != HugepageInfoPath(sysDir, p2)
  {
    if HugepageInfoPath(sysDir, p1) == HugepageInfoPath(sysDir, p2) {
      assert sysDir + "\\." + p1 + "_hugepage_info" == (sysDir + "\\.") + p1 + "_hugepage_info";
      assert sysDir + "\\." + p2 + "_hugepage_info" == (sysDir + "\\.") + p2 + "_hugepage_info";
      SameFrameSameMiddle(sysDir + "\\.", p1, p2, "_hugepage_info");
    }
  }

  /**
   * Each file-backed array lives in the runtime directory, under a file of
   * its own: a path that fits starts with the directory and a backslash,
   * and two names give two paths.
   */
  lemma FbarrayPathsSeparateNames(buflen: nat, runtimeDir: string, n1: string, n2: string)
    requires |runtimeDir| + 9 + |n1| < buflen && |runtimeDir| + 9 + |n2| < buflen
    ensures FbarrayPath(buflen, runtimeDir, n1)[..|runtimeDir| + 1] == runtimeDir + "\\"
    ensures n1 != n2 ==> FbarrayPath(buflen, runtimeDir, n1) != FbarrayPath(buflen, runtimeDir, n2)
  {
    var p1 := FbarrayPath(buflen, runtimeDir, n1);
    assert p1 == (runtimeDir + "\\") + ("fbarray_" + n1);
    if n1 != n2 && p1 == FbarrayPath(buflen, runtimeDir, n2) {
      assert runtimeDir + "\\fbarray_" + n1 == (runtimeDir + "\\fbarray_") + n1 + "";
      assert runtimeDir + "\\fbarray_" + n2 == (runtimeDir + "\\fbarray_") + n2 + "";
      SameFrameSameMiddle(runtimeDir + "\\fbarray_", n1, n2, "");
    }
  }

  /** The socket sits directly in the runtime directory, after a forward slash, when the path fits. */
  lemma MpSocketInRuntimeDir(runtimeDir: string)
    requires |runtimeDir| + 10 <= PATH_MAX - 2
    ensures MpSocketPath(runtimeDir) == runtimeDir + "/mp_socket"
    ensures MpSocketPath(runtimeDir)[|runtimeDir|] == '/'
  {
  }

  /** Different page ids name different map files, as long as the paths fit. */
  lemma HugefilePathsSeparateIds(buflen: nat, hugeDir: string, prefix: string, i: int, j: int)
    requires buflen > 0 && i != j
    requires |hugeDir + "/" + prefix + "map_" + FormatInt(i, 0)| < buflen - 1
    requires |hugeDir + "/" + prefix + "map_" + FormatInt(j, 0)| < buflen - 1
    ensures HugefilePath(buflen, hugeDir, prefix, i) != HugefilePath(buflen, hugeDir, prefix, j)
  {
    if HugefilePath(buflen, hugeDir, prefix, i) == HugefilePath(buflen, hugeDir, prefix, j) {
      var pre := hugeDir + "/" + prefix + "map_";
      assert pre + FormatInt(i, 0) == pre + FormatInt(i, 0) + "";
      assert pre + FormatInt(j, 0) == pre + FormatInt(j, 0) + "";
      SameFrameSameMiddle(pre, FormatInt(i, 0), FormatInt(j, 0), "");
      FormatIntInjective(i, j);
    }
  }

  // -------------------------------------------------------------------
  // eal_create_runtime_dir
  // -------------------------------------------------------------------

  /** What `mkdir` reports for a path: created, already there (EEXIST), or another failure. */
  datatype MkdirResult = Created | AlreadyExists | MkdirFailed

  /** The return code and the contents of the static `runtime_dir` buffer (empty until written). */
  datatype RuntimeDirResult = RuntimeDirResult(ret: int, runtimeDir: string)

  /**
   * `eal_create_runtime_dir` as written: print `<temp dir>\dpdk`, then
   * `<that>\<prefix>` into the runtime buffer, each into PATH_MAX bytes,
   * rejecting a print only when its full length EQUALS the buffer size;
   * then make both directories, accepting ones that exist.
   */
  function CreateRuntimeDirAsWritten(tempDir: string, prefix: string, mkdir: string -> MkdirResult): (r: RuntimeDirResult)
    ensures r.ret == 0 || r.ret == -1
    ensures |r.runtimeDir| < PATH_MAX
  {
    var full := tempDir + "\\dpdk";
    if |full| == PATH_MAX then RuntimeDirResult(-1, "")
    else
      var tmp := Truncate(full, PATH_MAX);
      var full2 := tmp + "\\" + prefix;
      var rd := Truncate(full2, PATH_MAX);
      if |full2| == PATH_MAX then RuntimeDirResult(-1, rd)
      else if mkdir(tmp) == MkdirFailed || mkdir(rd) == MkdirFailed then RuntimeDirResult(-1, rd)
      else RuntimeDirResult(0, rd)
  }

  /**
   * A temporary directory of 256 to 259 characters prints `\dpdk` past the
   * buffer: the length reported is over PATH_MAX, not equal to it, so the
   * truncated name passes, and the runtime directory made and reported is
   * not `<temp dir>\dpdk\<prefix>`.
   */
  lemma RuntimeDirTruncationMissed(tempDir: string, prefix: string, mkdir: string -> MkdirResult)
    requires PATH_MAX - 4 <= |tempDir| < PATH_MAX && |prefix| > 0
    requires forall p :: mkdir(p) != MkdirFailed
    ensures CreateRuntimeDirAsWritten(tempDir, prefix, mkdir).ret == 0
    ensures CreateRuntimeDirAsWritten(tempDir, prefix, mkdir).runtimeDir != tempDir + "\\dpdk\\" + prefix
  {
  }

  /**
   * `eal_create_runtime_dir` as intended: a print whose full length reaches
   * the buffer size was truncated, and fails.
   */
  function CreateRuntimeDir(tempDir: string, prefix: string, mkdir: string -> MkdirResult): (r: RuntimeDirResult)
    ensures r.ret == 0 || r.ret == -1
    ensures |r.runtimeDir| < PATH_MAX
    ensures r.ret == 0 <==>
      |tempDir + "\\dpdk\\" + prefix| < PATH_MAX &&
      mkdir(tempDir + "\\dpdk") != MkdirFailed && mkdir(tempDir + "\\dpdk\\" + prefix) != MkdirFailed
    ensures r.ret == 0 ==> r.runtimeDir == tempDir + "\\dpdk\\" + prefix
  {
    var full := tempDir + "\\dpdk";
    if |full| >= PATH_MAX then RuntimeDirResult(-1, "")
    else
      var tmp := Truncate(full, PATH_MAX);
      var full2 := tmp + "\\" + prefix;
      var rd := Truncate(full2, PATH_MAX);
      assert full2 == tempDir + "\\dpdk\\" + prefix;
      if |full2| >= PATH_MAX then RuntimeDirResult(-1, rd)
      else if mkdir(tmp) == MkdirFailed || mkdir(rd) == MkdirFailed then RuntimeDirResult(-1, rd)
      else RuntimeDirResult(0, rd)
  }

  /** When nothing is truncated the two readings agree. */
  lemma RuntimeDirAgreesWhenFits(tempDir: string, prefix: string, mkdir: string -> MkdirResult)
    requires |tempDir + "\\dpdk\\" + prefix| < PATH_MAX
    ensures CreateRuntimeDirAsWritten(tempDir, prefix, mkdir) == CreateRuntimeDir(tempDir, prefix, mkdir)
  {
    assert (tempDir + "\\dpdk") + "\\" + prefix == tempDir + "\\dpdk\\" + prefix;
  }
}
