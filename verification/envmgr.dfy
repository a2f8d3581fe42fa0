/** Test deployment of utils/envmgr.py: a fresh directory under `/local`,
    named from a prefix, eight random lower-case letters and four random
    digits, receives every test file on every server. The random draws are
    parameters and the SFTP session is reduced to the list of operations it
    performs. */
module EnvMgr {
  import opened Text

  const ServerDir := "/local"
  const DefaultPrefix := "test_"

  /** `S_IRWXU | S_IRGRP | S_IXGRP | S_IROTH | S_IXOTH`, octal 755. */
  const TestFileMode: nat := 0x1C0 + 0x20 + 0x8 + 0x4 + 0x1

  predicate IsLower(c: char) {
    'a' <= c <= 'z'
  }

  /** The letter at index `k` of `string.ascii_lowercase`. */
  function LowerChar(k: nat): (c: char)
    requires k < 26
    ensures IsLower(c) && c as int - 'a' as int == k
  {
    ('a' as int + k) as char
  }

  /** The random draws of `get_unique_name`: eight indices into the
      lower-case alphabet and four digits. */
  predicate ValidDraws(letters: seq<nat>, digits: seq<nat>) {
    && |letters| == 8 && |digits| == 4
    && (forall i :: 0 <= i < |letters| ==> letters[i] < 26)
    && (forall i :: 0 <= i < |digits| ==> digits[i] < 10)
  }

  /** `get_unique_name(prefix)` for the given draws: the prefix, the eight
      letters, then the four digits. */
  function UniqueName(prefix: string, letters: seq<nat>, digits: seq<nat>): (name: string)
    requires ValidDraws(letters, digits)
    ensures |name| == |prefix| + 12
    ensures StartsWith(name, prefix)
    ensures forall i :: |prefix| <= i < |prefix| + 8 ==> IsLower(name[i])
    ensures forall i :: |prefix| + 8 <= i < |name| ==> IsDigit(name[i])
  {
    var chars := seq(8, i requires 0 <= i < 8 => LowerChar(letters[i]));
    var nums := seq(4, i requires 0 <= i < 4 => DigitChar(digits[i]));
    prefix + chars + nums
  }

  /** `str(d)` of a single digit is the one character `DigitChar` gives. */
  lemma SingleDigit(d: nat)
    requires d < 10
    ensures Dec(d) == [DigitChar(d)]
  {
  }

  /** Different draws give different names: the name determines them. */
  lemma {:induction false} UniqueNameInjective(prefix: string, l1: seq<nat>, d1: seq<nat>, l2: seq<nat>, d2: seq<nat>)
    requires ValidDraws(l1, d1) && ValidDraws(l2, d2)
    requires UniqueName(prefix, l1, d1) == UniqueName(prefix, l2, d2)
    ensures l1 == l2 && d1 == d2
  {
    var n1, n2 := UniqueName(prefix, l1, d1), UniqueName(prefix, l2, d2);
    forall i | 0 <= i < 8 ensures l1[i] == l2[i] {
      assert n1[|prefix| + i] == LowerChar(l1[i]);
      assert n2[|prefix| + i] == LowerChar(l2[i]);
    }
    forall i | 0 <= i < 4 ensures d1[i] == d2[i] {
      assert n1[|prefix| + 8 + i] == DigitChar(d1[i]);
      assert n2[|prefix| + 8 + i] == DigitChar(d2[i]);
    }
  }

  /** `path.basename`: the text after the last `/`. */
  function Basename(p: string): (b: string)
    ensures '/' !in b
    ensures |b| <= |p|
    decreases |p|
  {
    if |p| == 0 then ""
    else if p[|p| - 1] == '/' then ""
    else Basename(p[..|p| - 1]) + [p[|p| - 1]]
  }

  /** The base name is the whole tail of the path after its last `/`. */
  lemma {:induction false} BasenameSuffix(p: string)
    ensures var b := Basename(p);
            && p[|p| - |b|..] == b
            && (|b| < |p| ==> p[|p| - |b| - 1] == '/')
    decreases |p|
  {
    if |p| > 0 && p[|p| - 1] != '/' {
      var q := p[..|p| - 1];
      BasenameSuffix(q);
      var b := Basename(q);
      assert Basename(p) == b + [p[|p| - 1]];
      assert q[|q| - |b|..] + [p[|p| - 1]] == p[|p| - |b| - 1..];
    }
  }

  /** `path.join(dir, name)` for a relative `name`. */
  function Join(dir: string, name: string): string {
    dir + "/" + name
  }

  /** One SFTP operation on one server. */
  datatype SftpOp =
    | Mkdir(server: string, path: string)
    | Put(server: string, local: string, remote: string)
    | Chmod(server: string, remote: string, mode: nat)

  /** The put and chmod of every file into `dir`, in file order. */
  function FileOps(server: string, dir: string, files: seq<string>): (ops: seq<SftpOp>)
    ensures |ops| == 2 * |files|
    decreases |files|
  {
    if |files| == 0 then []
    else
      var remote := Join(dir, Basename(files[0]));
      [Put(server, files[0], remote), Chmod(server, remote, TestFileMode)] + FileOps(server, dir, files[1..])
  }

  /** Every file operation acts on a file directly inside `dir`. */
  lemma {:induction false} FileOpsInDir(server: string, dir: string, files: seq<string>)
    ensures forall op :: op in FileOps(server, dir, files) ==>
              op.server == server && !op.Mkdir? && DirectlyIn(OpDir(op), dir)
    decreases |files|
  {
    if |files| > 0 {
      var remote := Join(dir, Basename(files[0]));
      var head := [Put(server, files[0], remote), Chmod(server, remote, TestFileMode)];
      var rest := FileOps(server, dir, files[1..]);
      assert FileOps(server, dir, files) == head + rest;
      FileOpsInDir(server, dir, files[1..]);
      JoinDirectlyIn(dir, Basename(files[0]));
      forall op: SftpOp | op in head + rest
        ensures op.server == server && !op.Mkdir? && DirectlyIn(OpDir(op), dir)
      {
        if op !in rest {
          assert op == head[0] || op == head[1];
        }
      }
    }
  }

  /** The `i`-th file is put, then made executable, at its place in the
      sequence of operations. */
  lemma {:induction false} FileOpsOrder(server: string, dir: string, files: seq<string>, i: nat)
    requires i < |files|
    ensures FileOps(server, dir, files)[2 * i] == Put(server, files[i], Join(dir, Basename(files[i])))
    ensures FileOps(server, dir, files)[2 * i + 1] == Chmod(server, Join(dir, Basename(files[i])), TestFileMode)
    decreases i
  {
    var remote := Join(dir, Basename(files[0]));
    var head := [Put(server, files[0], remote), Chmod(server, remote, TestFileMode)];
    var rest := FileOps(server, dir, files[1..]);
    var ops := FileOps(server, dir, files);
    assert ops == head + rest;
    if i > 0 {
      FileOpsOrder(server, dir, files[1..], i - 1);
      assert files[1..][i - 1] == files[i];
      assert ops[2 * i] == rest[2 * (i - 1)];
      assert ops[2 * i + 1] == rest[2 * (i - 1) + 1];
    }
  }

  /** What one server's session does: make the directory, then put and
      chmod every file into it. */
  function ServerOps(server: string, dir: string, files: seq<string>): (ops: seq<SftpOp>)
    ensures |ops| == 1 + 2 * |files| && ops[0] == Mkdir(server, dir)
    ensures forall op :: op in ops ==> op.server == server && InDir(op, dir)
  {
    FileOpsInDir(server, dir, files);
    [Mkdir(server, dir)] + FileOps(server, dir, files)
  }

  /** `deploy_tests`: one directory `/local/<unique name>`, chosen once,
      used on every server, and returned. */
  function DeployTests(files: seq<string>, servers: seq<string>, letters: seq<nat>, digits: seq<nat>): (r: (string, seq<SftpOp>))
    requires ValidDraws(letters, digits)
    ensures StartsWith(r.0, ServerDir + "/" + DefaultPrefix) && |r.0| == |ServerDir| + 1 + |DefaultPrefix| + 12
    ensures |r.1| == |servers| * (1 + 2 * |files|)
  {
    var dir := Join(ServerDir, UniqueName(DefaultPrefix, letters, digits));
    assert StartsWith(dir, ServerDir + "/" + DefaultPrefix) by {
      assert dir == ServerDir + "/" + UniqueName(DefaultPrefix, letters, digits);
      assert UniqueName(DefaultPrefix, letters, digits)[..|DefaultPrefix|] == DefaultPrefix;
    }
    DeployOpsLength(files, servers, dir);
    (dir, DeployOps(files, servers, dir))
  }

  /** The sessions of all servers, one after another. */
  function DeployOps(files: seq<string>, servers: seq<string>, dir: string): (ops: seq<SftpOp>)
    ensures |servers| > 0 ==> |ops| >= 1 + 2 * |files| && ops[..1 + 2 * |files|] == ServerOps(servers[0], dir, files)
    decreases |servers|
  {
    if |servers| == 0 then []
    else ServerOps(servers[0], dir, files) + DeployOps(files, servers[1..], dir)
  }

  /** Each server gets the same number of operations. */
  lemma {:induction false} DeployOpsLength(files: seq<string>, servers: seq<string>, dir: string)
    ensures |DeployOps(files, servers, dir)| == |servers| * (1 + 2 * |files|)
    decreases |servers|
  {
    if |servers| > 0 {
      var n, k := |servers|, 1 + 2 * |files|;
      DeployOpsLength(files, servers[1..], dir);
      assert |DeployOps(files, servers[1..], dir)| == (n - 1) * k;
      assert |DeployOps(files, servers, dir)| == k + |DeployOps(files, servers[1..], dir)|;
      MulStep(n, k);
    }
  }

  lemma MulStep(n: nat, k: nat)
    requires n > 0
    ensures n * k == k + (n - 1) * k
  {
  }

  /** The directory an operation works in. */
  function OpDir(op: SftpOp): string {
    match op
    case Mkdir(_, p) => p
    case Put(_, _, remote) => remote
    case Chmod(_, remote, _) => remote
  }

  /** Whether `p` names an entry directly inside directory `dir`. */
  predicate DirectlyIn(p: string, dir: string) {
    StartsWith(p, dir + "/") && '/' !in p[|dir| + 1..]
  }

  lemma JoinDirectlyIn(dir: string, b: string)
    requires '/' !in b
    ensures DirectlyIn(Join(dir, b), dir)
  {
    assert Join(dir, b)[..|dir| + 1] == dir + "/";
    assert Join(dir, b)[|dir| + 1..] == b;
  }

  /** Whether an operation creates `dir` or acts on a file directly in it. */
  predicate InDir(op: SftpOp, dir: string) {
    if op.Mkdir? then op.path == dir else DirectlyIn(OpDir(op), dir)
  }

  /** Every operation of a deployment, on every server, is the creation of
      the one directory or acts on a file directly inside it. */
  lemma {:induction false} DeployOneDirectory(files: seq<string>, servers: seq<string>, dir: string)
    ensures forall op :: op in DeployOps(files, servers, dir) ==> op.server in servers && InDir(op, dir)
    decreases |servers|
  {
    if |servers| > 0 {
      DeployOneDirectory(files, servers[1..], dir);
      var ops := ServerOps(servers[0], dir, files);
      assert DeployOps(files, servers, dir) == ops + DeployOps(files, servers[1..], dir);
      forall op | op in DeployOps(files, servers, dir) ensures op.server in servers && InDir(op, dir) {
        if op !in ops {
          assert op.server in servers[1..];
        }
      }
    }
  }

  /** The operations `deploy_tests` performs all happen in the directory it
      returns. */
  lemma DeployTestsOneDirectory(files: seq<string>, servers: seq<string>, letters: seq<nat>, digits: seq<nat>)
    requires ValidDraws(letters, digits)
    ensures var (dir, ops) := DeployTests(files, servers, letters, digits);
            forall op :: op in ops ==> op.server in servers && InDir(op, dir)
  {
    var (dir, ops) := DeployTests(files, servers, letters, digits);
    DeployOneDirectory(files, servers, dir);
  }
}
