/** The mapping from a file name in the environments directory to an
    environment name (`file_name_to_env_name` in src/main.rs).

    src/main.rs calls `rsplitn(2, ".env")` and keeps the second piece, which is
    everything before the RIGHTMOST occurrence of ".env" anywhere in the file
    name. It is not a suffix test: "a.env.bak" is accepted as "a". */
module NameCodec {
  import opened Wrappers

  /** The marker that separates an environment name from the rest of a file name. */
  const EnvSuffix: string := ".env"

  /** ".env" occurs in `s` starting at position `i`. */
  predicate IsEnvAt(s: string, i: int) {
    0 <= i && i + 4 <= |s| && s[i..i + 4] == EnvSuffix
  }

  /** ".env" occurs somewhere in `s`. */
  predicate ContainsEnv(s: string) {
    exists i :: 0 <= i < |s| && IsEnvAt(s, i)
  }

  /** Two occurrences of ".env" never overlap: no proper prefix of ".env" is
      also a suffix of it. */
  lemma NoOverlap(s: string, i: int, j: int)
    requires IsEnvAt(s, i) && i < j < i + 4
    ensures !IsEnvAt(s, j)
  {
    assert s[i + 1] == s[i..i + 4][1] == 'e';
    assert s[i + 2] == s[i..i + 4][2] == 'n';
    assert s[i + 3] == s[i..i + 4][3] == 'v';
    if j + 4 <= |s| {
      assert s[j..j + 4][0] == s[j];
    }
  }

  /** The reverse search of `rsplitn`: the rightmost start position of ".env"
      that is at most `i`. */
  function RFindFrom(s: string, i: int): (r: Option<nat>)
    decreases if i < 0 then 0 else i + 1
    ensures r.Some? ==> r.value <= i && IsEnvAt(s, r.value)
    ensures r.Some? ==> forall j :: r.value < j <= i ==> !IsEnvAt(s, j)
    ensures r.None? ==> forall j :: j <= i ==> !IsEnvAt(s, j)
  {
    if i < 0 then None
    else if IsEnvAt(s, i) then Some(i)
    else RFindFrom(s, i - 1)
  }

  /** The rightmost start position of ".env" in `s`, if any. */
  function RFind(s: string): (r: Option<nat>)
    ensures r.None? <==> !ContainsEnv(s)
    ensures r.Some? ==> IsEnvAt(s, r.value)
    ensures r.Some? ==> forall j :: r.value < j ==> !IsEnvAt(s, j)
  {
    RFindFrom(s, |s| - 4)
  }

  /** Past an occurrence at `i` with no later occurrence, the tail after it
      holds no ".env". */
  lemma NoEnvInTail(s: string, i: nat)
    requires IsEnvAt(s, i)
    requires forall j :: i < j ==> !IsEnvAt(s, j)
    ensures !ContainsEnv(s[i + 4..])
  {
    var rest := s[i + 4..];
    if ContainsEnv(rest) {
      var k :| 0 <= k < |rest| && IsEnvAt(rest, k);
      assert s[i + 4 + k..i + 4 + k + 4] == rest[k..k + 4];
      assert IsEnvAt(s, i + 4 + k);
      assert false;
    }
  }

  /** `s.rsplitn(2, ".env")` collected into a vector: with a match, the piece
      after the rightmost ".env" and then the piece before it; without one,
      the whole string as the only piece. */
  function RSplitN2(s: string): (pieces: seq<string>)
    ensures |pieces| == 1 <==> !ContainsEnv(s)
    ensures |pieces| == 1 ==> pieces[0] == s
    ensures |pieces| != 1 ==> |pieces| == 2 && s == pieces[1] + EnvSuffix + pieces[0]
    ensures |pieces| == 2 ==> !ContainsEnv(pieces[0])
  {
    match RFind(s)
    case None => [s]
    case Some(i) =>
      assert s == s[..i] + s[i..i + 4] + s[i + 4..];
      NoEnvInTail(s, i);
      [s[i + 4..], s[..i]]
  }

  /** `file_name_to_env_name`: the second piece of the split when there are
      two, nothing otherwise. The result is the text before the rightmost
      ".env" of the file name. */
  function FileNameToEnvName(fileName: string): (r: Option<string>)
    ensures r.None? <==> !ContainsEnv(fileName)
    ensures r.Some? ==> |r.value| + 4 <= |fileName|
    ensures r.Some? ==> fileName[..|r.value|] == r.value && IsEnvAt(fileName, |r.value|)
    ensures r.Some? ==> forall j :: |r.value| < j ==> !IsEnvAt(fileName, j)
  {
    var split := RSplitN2(fileName);
    if |split| == 2 then
      assert fileName == split[1] + EnvSuffix + split[0];
      assert ContainsEnv(fileName);
      var i := RFind(fileName).value;
      assert split[1] == fileName[..i];
      Some(split[1])
    else
      None
  }

  /** What is left after the name and its ".env" holds no further ".env". */
  lemma {:induction false} RestHasNoEnv(fileName: string, name: string)
    requires FileNameToEnvName(fileName) == Some(name)
    ensures fileName == name + EnvSuffix + fileName[|name| + 4..]
    ensures !ContainsEnv(fileName[|name| + 4..])
  {
    assert fileName == fileName[..|name|] + fileName[|name|..|name| + 4] + fileName[|name| + 4..];
    NoEnvInTail(fileName, |name|);
  }

  /** The converse: any name followed by ".env" and a tail without ".env" is
      decoded to that name, whatever the name itself contains. */
  lemma {:induction false} DecodesBeforeLastEnv(name: string, rest: string)
    requires !ContainsEnv(rest)
    ensures FileNameToEnvName(name + EnvSuffix + rest) == Some(name)
  {
    var s := name + EnvSuffix + rest;
    assert s[|name|..|name| + 4] == EnvSuffix;
    assert IsEnvAt(s, |name|);
    forall j | |name| < j
      ensures !IsEnvAt(s, j)
    {
      if j < |name| + 4 {
        NoOverlap(s, |name|, j);
      } else if IsEnvAt(s, j) {
        assert rest[j - |name| - 4..j - |name|] == s[j..j + 4];
        assert IsEnvAt(rest, j - |name| - 4);
        assert false;
      }
    }
    var r := FileNameToEnvName(s);
    assert r.Some?;
    assert |r.value| == |name|;
    assert s[..|name|] == name;
  }

  /** Decoding accepts exactly the names that can be written as
      `name + ".env" + rest` with no ".env" in `rest`. */
  lemma DecodesIff(fileName: string, name: string)
    ensures FileNameToEnvName(fileName) == Some(name) <==>
            |name| + 4 <= |fileName| && fileName == name + EnvSuffix + fileName[|name| + 4..] &&
            !ContainsEnv(fileName[|name| + 4..])
  {
    if FileNameToEnvName(fileName) == Some(name) {
      RestHasNoEnv(fileName, name);
    }
    if |name| + 4 <= |fileName| && fileName == name + EnvSuffix + fileName[|name| + 4..] &&
       !ContainsEnv(fileName[|name| + 4..]) {
      DecodesBeforeLastEnv(name, fileName[|name| + 4..]);
    }
  }

  /** Appending ".env" to any name and decoding gives the name back: exactly
      one ".env" is stripped, even when the name already holds one. */
  lemma RoundTrip(name: string)
    ensures FileNameToEnvName(name + EnvSuffix) == Some(name)
  {
    assert !IsEnvAt("", 0);
    DecodesBeforeLastEnv(name, "");
    assert name + EnvSuffix + "" == name + EnvSuffix;
  }

  /** A file name that ends in ".env" decodes to what precedes it. */
  lemma ExampleSuffix()
    ensures FileNameToEnvName("a.env") == Some("a")
  {
    RoundTrip("a");
    assert "a" + EnvSuffix == "a.env";
  }

  /** The rightmost ".env" decides: one in the middle is accepted. */
  lemma ExampleMiddle()
    ensures FileNameToEnvName("a.env.bak") == Some("a")
  {
    assert ".bak"[0..4][1] == 'b';
    assert !ContainsEnv(".bak");
    DecodesBeforeLastEnv("a", ".bak");
    assert "a" + EnvSuffix + ".bak" == "a.env.bak";
  }

  /** Only the last of two ".env" is stripped. */
  lemma ExampleTwice()
    ensures FileNameToEnvName("a.env.env") == Some("a.env")
  {
    RoundTrip("a.env");
    assert "a.env" + EnvSuffix == "a.env.env";
  }

  /** The bare ".env" gives the empty name; it is not rejected. */
  lemma ExampleBare()
    ensures FileNameToEnvName(".env") == Some("")
  {
    RoundTrip("");
    assert "" + EnvSuffix == ".env";
  }

  /** A file name without ".env" gives nothing. */
  lemma ExampleRejected()
    ensures FileNameToEnvName("b.txt") == None
  {
    assert "b.txt"[0..4][0] == 'b';
    assert "b.txt"[1..5][0] == '.' && "b.txt"[1..5][1] == 't';
  }
}
