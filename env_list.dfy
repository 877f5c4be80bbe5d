/** The listing filter (`get_envs_list` in src/main.rs): the environment
    names of a directory listing, in listing order, with the file names that
    do not decode dropped. */
module EnvList {
  import opened Wrappers
  import opened NameCodec

  /** `flat_map(file_name_to_env_name)` over the listing, collected. */
  function GetEnvsList(files: seq<string>): (names: seq<string>)
    ensures |names| <= |files|
    ensures forall e :: e in names ==> exists f :: f in files && FileNameToEnvName(f) == Some(e)
  {
    if files == [] then []
    else
      match FileNameToEnvName(files[0])
      case Some(e) => [e] + GetEnvsList(files[1..])
      case None => GetEnvsList(files[1..])
  }

  /** Listing two parts of a directory one after the other gives the names of
      the first part followed by those of the second: the filter keeps order. */
  lemma {:induction false} ListConcat(a: seq<string>, b: seq<string>)
    ensures GetEnvsList(a + b) == GetEnvsList(a) + GetEnvsList(b)
  {
    if a == [] {
      assert a + b == b;
    } else {
      assert (a + b)[0] == a[0];
      assert (a + b)[1..] == a[1..] + b;
      ListConcat(a[1..], b);
    }
  }

  /** A single file contributes its decoded name, or nothing. */
  lemma ListSingle(f: string)
    ensures FileNameToEnvName(f).Some? ==> GetEnvsList([f]) == [FileNameToEnvName(f).value]
    ensures FileNameToEnvName(f).None? ==> GetEnvsList([f]) == []
  {
    assert [f][1..] == [];
  }

  /** A name is listed exactly when some file of the listing decodes to it. */
  lemma {:induction false} ListedIff(files: seq<string>, e: string)
    ensures e in GetEnvsList(files) <==> exists f :: f in files && FileNameToEnvName(f) == Some(e)
  {
    if files != [] {
      ListedIff(files[1..], e);
      if FileNameToEnvName(files[0]) == Some(e) {
        assert e in GetEnvsList(files);
      } else {
        assert forall f :: f in files && f != files[0] ==> f in files[1..];
      }
    }
  }

  /** Two accepted files `files[i]` and `files[j]`, with `i < j`, have their
      names at positions `k < l` of the result. */
  lemma ListOrder(files: seq<string>, i: nat, j: nat)
    requires i < j < |files|
    requires ContainsEnv(files[i]) && ContainsEnv(files[j])
    ensures exists k, l :: 0 <= k < l < |GetEnvsList(files)| &&
              GetEnvsList(files)[k] == FileNameToEnvName(files[i]).value &&
              GetEnvsList(files)[l] == FileNameToEnvName(files[j]).value
  {
    var a, b, c := files[..i], files[i + 1..j], files[j + 1..];
    assert files == a + [files[i]] + b + [files[j]] + c;
    ListConcat(a + [files[i]] + b + [files[j]], c);
    ListConcat(a + [files[i]] + b, [files[j]]);
    ListConcat(a + [files[i]], b);
    ListConcat(a, [files[i]]);
    ListSingle(files[i]);
    ListSingle(files[j]);
    var names := GetEnvsList(files);
    var k := |GetEnvsList(a)|;
    var l := k + 1 + |GetEnvsList(b)|;
    assert names[k] == FileNameToEnvName(files[i]).value;
    assert names[l] == FileNameToEnvName(files[j]).value;
  }

  /** When every file decodes, nothing is dropped: the result is the decoded
      listing, position by position. */
  lemma {:induction false} ListAllAccepted(files: seq<string>)
    requires forall f :: f in files ==> ContainsEnv(f)
    ensures |GetEnvsList(files)| == |files|
    ensures forall k :: 0 <= k < |files| ==> GetEnvsList(files)[k] == FileNameToEnvName(files[k]).value
  {
    if files != [] {
      var tail := files[1..];
      assert forall f :: f in tail ==> f in files;
      ListAllAccepted(tail);
      assert files[0] in files;
      var e := FileNameToEnvName(files[0]).value;
      assert GetEnvsList(files) == [e] + GetEnvsList(tail);
      forall k | 0 <= k < |files|
        ensures GetEnvsList(files)[k] == FileNameToEnvName(files[k]).value
      {
        if k > 0 {
          assert files[k] == tail[k - 1];
        }
      }
    }
  }

  /** When no file decodes, the listing is empty. */
  lemma {:induction false} ListNoneAccepted(files: seq<string>)
    requires forall f :: f in files ==> !ContainsEnv(f)
    ensures GetEnvsList(files) == []
  {
    if files != [] {
      assert forall f :: f in files[1..] ==> f in files;
      ListNoneAccepted(files[1..]);
    }
  }

  /** Three files of which the middle one does not decode list the other
      two names, in order. */
  lemma ListOfThree(x: string, y: string, z: string)
    requires FileNameToEnvName(x).Some? && FileNameToEnvName(y).None? && FileNameToEnvName(z).Some?
    ensures GetEnvsList([x, y, z]) == [FileNameToEnvName(x).value, FileNameToEnvName(z).value]
  {
    var a, c := FileNameToEnvName(x).value, FileNameToEnvName(z).value;
    ListSingle(x);
    ListSingle(y);
    ListSingle(z);
    ListConcat([x], [y]);
    assert [x] + [y] == [x, y];
    assert GetEnvsList([x, y]) == [a];
    ListConcat([x, y], [z]);
    assert [x, y] + [z] == [x, y, z];
    assert GetEnvsList([x, y, z]) == [a] + [c];
  }

  /** A directory of "a.env", "b.txt" and "c.env" lists "a" then "c"; "b"
      never appears. */
  lemma ExampleListing()
    ensures GetEnvsList(["a.env", "b.txt", "c.env"]) == ["a", "c"]
    ensures "b" !in GetEnvsList(["a.env", "b.txt", "c.env"])
  {
    ExampleSuffix();
    ExampleRejected();
    RoundTrip("c");
    assert "c" + EnvSuffix == "c.env";
    ListOfThree("a.env", "b.txt", "c.env");
  }
}
