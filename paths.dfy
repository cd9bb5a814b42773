/**
 * The name under which a finished export is saved:
 * `os.path.join('output', 'tmp_{}_{}.xls'.format(name.replace(' ', '_'), t))`.
 * The timestamp `t` is what `time.strftime("%Y-%m-%d.%H%M%S")` returned.
 */
module Paths {

  /** The output folder the exporter creates and saves into. */
  const Folder := "output"

  /** `name.replace(' ', '_')` */
  function Sanitize(name: string): string
  {
    if name == [] then [] else [if name[0] == ' ' then '_' else name[0]] + Sanitize(name[1..])
  }

  /** POSIX `os.path.join(dir, file)` for two components. */
  function Join(dir: string, file: string): string
  {
    if |file| > 0 && file[0] == '/' then file
    else if dir == [] || dir[|dir| - 1] == '/' then dir + file
    else dir + "/" + file
  }

  function FileName(tableName: string, t: string): string
  {
    "tmp_" + Sanitize(tableName) + "_" + t + ".xls"
  }

  function OutputPath(tableName: string, t: string): string
  {
    Join(Folder, FileName(tableName, t))
  }

  /** Sanitizing keeps the length and turns exactly the spaces into underscores. */
  lemma {:induction false} SanitizeSpec(name: string)
    ensures |Sanitize(name)| == |name|
    ensures forall i :: 0 <= i < |name| ==>
      Sanitize(name)[i] == if name[i] == ' ' then '_' else name[i]
  {
    if name != [] {
      SanitizeSpec(name[1..]);
      var r := Sanitize(name);
      forall i | 0 < i < |name|
        ensures r[i] == if name[i] == ' ' then '_' else name[i]
      {
        assert r[i] == Sanitize(name[1..])[i - 1] && name[i] == name[1..][i - 1];
      }
    }
  }

  /** The length of "output/tmp_", where the sanitized table name starts. */
  const NameStart := 11

  /**
   * The path is "output/tmp_" + sanitized name + "_" + t + ".xls"; the
   * stretch that comes from the table name holds no space, and the whole path
   * holds none when the timestamp holds none.
   */
  lemma OutputPathShape(tableName: string, t: string)
    ensures OutputPath(tableName, t) == "output/tmp_" + Sanitize(tableName) + "_" + t + ".xls"
    ensures var p := OutputPath(tableName, t);
      && |p| == NameStart + |tableName| + 1 + |t| + 4
      && (forall i :: 0 <= i < |tableName| ==>
            p[NameStart + i] != ' ' && (tableName[i] != ' ' ==> p[NameStart + i] == tableName[i]))
      && ((forall i :: 0 <= i < |t| ==> t[i] != ' ') ==> forall i :: 0 <= i < |p| ==> p[i] != ' ')
  {
    SanitizeSpec(tableName);
    var p := OutputPath(tableName, t);
    var san := Sanitize(tableName);
    assert p == "output/tmp_" + san + "_" + t + ".xls";
    forall i | 0 <= i < |tableName| ensures p[NameStart + i] == san[i] {
    }
    if forall i :: 0 <= i < |t| ==> t[i] != ' ' {
      forall i | 0 <= i < |p| ensures p[i] != ' ' {
        if NameStart <= i < NameStart + |san| {
          assert p[i] == san[i - NameStart];
        } else if NameStart + |san| + 1 <= i < NameStart + |san| + 1 + |t| {
          assert p[i] == t[i - NameStart - |san| - 1];
        }
      }
    }
  }

  /** Two exports of the same table save to different files whenever their timestamps differ. */
  lemma OutputPathDistinguishesTimestamps(tableName: string, t1: string, t2: string)
    requires OutputPath(tableName, t1) == OutputPath(tableName, t2)
    ensures t1 == t2
  {
    OutputPathShape(tableName, t1);
    OutputPathShape(tableName, t2);
    var p := OutputPath(tableName, t1);
    var start := NameStart + |tableName| + 1;
    assert |t1| == |t2|;
    assert p[start..start + |t1|] == t1;
    assert p[start..start + |t2|] == t2;
  }

  /**
   * Two names sanitize alike exactly when they have the same length and, at
   * each position, agree or both hold a space or an underscore.
   */
  lemma SanitizeCollides(a: string, b: string)
    ensures Sanitize(a) == Sanitize(b) <==>
      |a| == |b| && forall i :: 0 <= i < |a| ==> a[i] == b[i] || (a[i] in {' ', '_'} && b[i] in {' ', '_'})
  {
    SanitizeSpec(a);
    SanitizeSpec(b);
    if Sanitize(a) == Sanitize(b) {
      forall i | 0 <= i < |a| ensures a[i] == b[i] || (a[i] in {' ', '_'} && b[i] in {' ', '_'}) {
        assert Sanitize(a)[i] == Sanitize(b)[i];
      }
    }
  }

  /** Two exports in the same second share one file exactly when their table names sanitize alike. */
  lemma OutputPathsCollide(a: string, b: string, t: string)
    ensures OutputPath(a, t) == OutputPath(b, t) <==> Sanitize(a) == Sanitize(b)
  {
    OutputPathShape(a, t);
    OutputPathShape(b, t);
    SanitizeSpec(a);
    SanitizeSpec(b);
    if OutputPath(a, t) == OutputPath(b, t) {
      var p := OutputPath(a, t);
      assert |a| == |b|;
      assert p[NameStart..NameStart + |a|] == Sanitize(a);
      assert p[NameStart..NameStart + |b|] == Sanitize(b);
    }
  }

  /** The sanitizing is not injective: "T 1" and "T_1" exported in the same second share one file name. */
  lemma SpaceAndUnderscoreShareAPath(t: string)
    ensures OutputPath("T 1", t) == OutputPath("T_1", t) == "output/tmp_T_1_" + t + ".xls"
  {
    SanitizeCollides("T 1", "T_1");
    OutputPathsCollide("T 1", "T_1", t);
    OutputPathShape("T_1", t);
  }
}
