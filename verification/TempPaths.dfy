/** The names of temporary download files (src/download.rs). */
module TempPaths {
  datatype Path = Path(dir: string, name: string)

  /** An attempt is known by its process and the value it took from that process's counter. */
  datatype Id = Id(pid: nat, count: nat)

  function Digit(n: int): char
    requires 0 <= n < 10
  {
    ('0' as int + n) as char
  }

  function Decimal(n: nat): string {
    if n < 10 then [Digit(n)] else Decimal(n / 10) + [Digit(n % 10)]
  }

  const SUFFIX := ".part"

  /** Next to the destination, so that the rename stays on one file system. */
  function TempPath(dest: Path, id: Id): Path {
    Path(dest.dir, dest.name + "." + Decimal(id.pid) + "." + Decimal(id.count) + SUFFIX)
  }

  predicate IsPart(p: Path) {
    |p.name| >= |SUFFIX| && p.name[|p.name| - |SUFFIX|..] == SUFFIX
  }

  /** The paths kept for attempts are those whose names end in ".part". */
  lemma PartExactlyWhen(p: Path)
    ensures IsPart(p) <==> exists stem: string :: p.name == stem + ".part"
  {
    if IsPart(p) {
      var stem := p.name[..|p.name| - |SUFFIX|];
      assert p.name == stem + ".part";
    }
    if stem: string :| p.name == stem + ".part" {
      assert p.name[|p.name| - 5..] == ".part";
    }
  }

  lemma {:induction false} DecimalHasNoDot(n: nat)
    ensures Decimal(n) != "" && '.' !in Decimal(n)
  {
    if n >= 10 { DecimalHasNoDot(n / 10); }
  }

  lemma {:induction false} DecimalIsInjective(m: nat, n: nat)
    requires Decimal(m) == Decimal(n)
    ensures m == n
  {
    DecimalHasNoDot(m / 10);
    DecimalHasNoDot(n / 10);
    var (s, t) := (Decimal(m), Decimal(n));
    assert s[|s| - 1] == Digit(m % 10) && t[|t| - 1] == Digit(n % 10);
    if m >= 10 {
      assert s[..|s| - 1] == Decimal(m / 10);
      if n >= 10 {
        assert t[..|t| - 1] == Decimal(n / 10);
        DecimalIsInjective(m / 10, n / 10);
      }
    }
  }

  lemma DotThenPart(x: string, a: string)
    requires '.' !in a
    ensures var s := x + "." + a;
            s[|x|] == '.' && s[..|x|] == x && s[|x| + 1..] == a && forall i :: |x| < i < |s| ==> s[i] != '.'
  {
    assert (x + "." + a)[..|x|] == x && (x + "." + a)[|x| + 1..] == a;
  }

  /** The last dot shows where the last part starts. */
  lemma LastPartStarts(x: string, y: string, a: string, b: string)
    requires '.' !in a && '.' !in b && x + "." + a == y + "." + b
    ensures x == y && a == b
  {
    DotThenPart(x, a);
    DotThenPart(y, b);
  }

  /** No two attempts share a temporary path, whatever they download to, and none is a path that does
      not end like one. */
  lemma TempPathsAreDistinct(dest: Path, id: Id, dest': Path, id': Id)
    ensures TempPath(dest, id) == TempPath(dest', id') ==> dest == dest' && id == id'
    ensures IsPart(TempPath(dest, id))
  {
    var (p, c, p', c') := (Decimal(id.pid), Decimal(id.count), Decimal(id'.pid), Decimal(id'.count));
    var (s, s') := (dest.name + "." + p + "." + c, dest'.name + "." + p' + "." + c');
    assert (s + SUFFIX)[|s|..] == SUFFIX && (s + SUFFIX)[..|s|] == s && (s' + SUFFIX)[..|s'|] == s';
    if TempPath(dest, id) == TempPath(dest', id') {
      assert s + SUFFIX == s' + SUFFIX;
      DecimalHasNoDot(id.pid);
      DecimalHasNoDot(id.count);
      DecimalHasNoDot(id'.pid);
      DecimalHasNoDot(id'.count);
      LastPartStarts(dest.name + "." + p, dest'.name + "." + p', c, c');
      LastPartStarts(dest.name, dest'.name, p, p');
      DecimalIsInjective(id.pid, id'.pid);
      DecimalIsInjective(id.count, id'.count);
    }
  }
}
