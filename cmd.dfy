/**
 The command codec of the preview protocol (`Cmd.kt`): a fixed vocabulary of
 four command types, each carried with a list of string arguments, written as
 one line of words separated by single spaces, with no quoting or escaping.
 */
module Codec {
  import opened Base
  import Utils

  /** `CmdType`: the whole command vocabulary. */
  datatype CmdType = ATTACH | PREVIEW_CLASSPATH | FRAME_REQUEST | FRAME

  /** `CmdType.name`: the enum constant's identifier. */
  function Name(t: CmdType): string {
    match t
    case ATTACH => "ATTACH"
    case PREVIEW_CLASSPATH => "PREVIEW_CLASSPATH"
    case FRAME_REQUEST => "FRAME_REQUEST"
    case FRAME => "FRAME"
  }

  /** `Cmd(type, args)`: an immutable command value. */
  datatype Cmd = Cmd(kind: CmdType, args: seq<string>)

  /** The separator between the words of a command line. */
  const SEP: char := ' '

  /** `joinToString(sep)` over a sequence of words. */
  function Join(words: seq<string>, sep: char): string
  {
    if |words| == 0 then ""
    else if |words| == 1 then words[0]
    else words[0] + [sep] + Join(words[1..], sep)
  }

  /**
   `split(sep)` / `splitToSequence(sep)` with a one-character delimiter: the
   pieces between delimiters, empty pieces included; never an empty list.
   */
  function Split(s: string, sep: char): (r: seq<string>)
    ensures |r| >= 1
    ensures forall i :: 0 <= i < |r| ==> sep !in r[i]
    decreases |s|
  {
    if |s| == 0 then [""]
    else if s[0] == sep then [""] + Split(s[1..], sep)
    else
      var t := Split(s[1..], sep);
      [[s[0]] + t[0]] + t[1..]
  }

  /** `asString()`: the type name followed by each argument, space-joined. */
  function AsString(c: Cmd): (r: string)
    ensures |Name(c.kind)| <= |r| && r[..|Name(c.kind)|] == Name(c.kind)
  {
    var words := [Name(c.kind)] + c.args;
    assert |words| > 1 ==> Join(words, SEP) == words[0] + ([SEP] + Join(words[1..], SEP));
    Join(words, SEP)
  }

  /**
   `typeByName[name]`: the map built with `associateBy { it.name }`; the
   lookup is an exact, case-sensitive comparison with the four names.
   */
  function TypeByName(name: string): (r: Option<CmdType>)
    ensures r.Some? ==> Name(r.value) == name
    ensures r.None? <==> forall t: CmdType :: Name(t) != name
  {
    if name == "ATTACH" then Some(ATTACH)
    else if name == "PREVIEW_CLASSPATH" then Some(PREVIEW_CLASSPATH)
    else if name == "FRAME_REQUEST" then Some(FRAME_REQUEST)
    else if name == "FRAME" then Some(FRAME)
    else None
  }

  /** What `fromString(s)` returns: the first word names the type, the rest are the args. */
  function Parse(s: string): (r: Option<Cmd>)
    ensures r.None? <==> forall t: CmdType :: Name(t) != Split(s, SEP)[0]
    ensures r.Some? ==> Name(r.value.kind) == Split(s, SEP)[0] && r.value.args == Split(s, SEP)[1..]
  {
    var first := Utils.NextOrNull(Split(s, SEP));
    match first.element
    case None => None
    case Some(name) =>
      match TypeByName(name)
      case None => None
      case Some(t) => Some(Cmd(t, first.remaining))
  }

  /**
   `Cmd.fromString`: take the first word off the word iterator, look it up,
   then move every remaining word into a fresh argument list
   (`forEachRemaining { args.add(it) }`).
   */
  method FromString(s: string) returns (r: Option<Cmd>)
    ensures r == Parse(s)
  {
    var wordsIt := Split(s, SEP);
    var first := Utils.NextOrNull(wordsIt);
    if first.element.None? {
      return None;
    }
    var t := TypeByName(first.element.value);
    if t.None? {
      return None;
    }
    wordsIt := first.remaining;
    var args: seq<string> := [];
    while |wordsIt| > 0
      invariant args + wordsIt == first.remaining
    {
      args := args + [wordsIt[0]];
      wordsIt := wordsIt[1..];
    }
    assert args + [] == args;
    return Some(Cmd(t.value, args));
  }

  // ---------------------------------------------------------------------
  // Properties of the word codec

  /** No type name contains the separator. */
  lemma NameHasNoSpace(t: CmdType)
    ensures SEP !in Name(t)
  {
  }

  /** A word without the separator splits into itself. */
  lemma {:induction false} SplitWord(w: string, sep: char)
    requires sep !in w
    ensures Split(w, sep) == [w]
    decreases |w|
  {
    if |w| > 0 {
      assert sep !in w[1..] by {
        forall i | 0 <= i < |w[1..]| ensures w[1..][i] != sep { assert w[1..][i] == w[i + 1]; }
      }
      SplitWord(w[1..], sep);
      assert [w[0]] + w[1..] == w;
    }
  }

  /** Splitting `w + sep + rest` peels `w` off as the first piece when `w` has no separator. */
  lemma {:induction false} SplitPrefix(w: string, sep: char, rest: string)
    requires sep !in w
    ensures Split(w + [sep] + rest, sep) == [w] + Split(rest, sep)
    decreases |w|
  {
    if |w| == 0 {
      assert w + [sep] + rest == [sep] + rest;
      assert ([sep] + rest)[1..] == rest;
    } else {
      var s := w + [sep] + rest;
      assert s[0] == w[0] && s[0] != sep;
      assert s[1..] == w[1..] + [sep] + rest;
      assert sep !in w[1..] by {
        forall i | 0 <= i < |w[1..]| ensures w[1..][i] != sep { assert w[1..][i] == w[i + 1]; }
      }
      SplitPrefix(w[1..], sep, rest);
      assert [w[0]] + w[1..] == w;
    }
  }

  /** Split undoes Join on separator-free words. */
  lemma {:induction false} SplitJoin(words: seq<string>, sep: char)
    requires |words| >= 1
    requires forall i :: 0 <= i < |words| ==> sep !in words[i]
    ensures Split(Join(words, sep), sep) == words
    decreases |words|
  {
    if |words| == 1 {
      SplitWord(words[0], sep);
    } else {
      SplitJoin(words[1..], sep);
      SplitPrefix(words[0], sep, Join(words[1..], sep));
      assert [words[0]] + words[1..] == words;
    }
  }

  /** Join undoes Split on every string: splitting loses nothing but the separators. */
  lemma {:induction false} JoinSplit(s: string, sep: char)
    ensures Join(Split(s, sep), sep) == s
    decreases |s|
  {
    if |s| > 0 {
      var rest := s[1..];
      JoinSplit(rest, sep);
      var t := Split(rest, sep);
      assert s == [s[0]] + rest;
      if s[0] == sep {
        var u := [""] + t;
        assert u[1..] == t;
        assert Join(u, sep) == "" + [sep] + Join(t, sep);
      } else {
        var u := [[s[0]] + t[0]] + t[1..];
        assert Split(s, sep) == u;
        assert u[0] == [s[0]] + t[0] && u[1..] == t[1..];
        if |t| == 1 {
          assert Join(t, sep) == t[0];
          assert Join(u, sep) == [s[0]] + t[0];
        } else {
          var tail := Join(t[1..], sep);
          assert Join(t, sep) == t[0] + [sep] + tail;
          assert Join(u, sep) == ([s[0]] + t[0]) + [sep] + tail;
          assert ([s[0]] + t[0]) + [sep] + tail == [s[0]] + (t[0] + [sep] + tail);
        }
      }
    }
  }

  /** Every separator in the input starts a new piece: there is one more piece than separators. */
  lemma {:induction false} SplitCount(s: string, sep: char)
    ensures |Split(s, sep)| == multiset(s)[sep] + 1
    decreases |s|
  {
    if |s| > 0 {
      SplitCount(s[1..], sep);
      assert s == [s[0]] + s[1..];
      assert multiset(s) == multiset([s[0]]) + multiset(s[1..]);
    }
  }

  /** Joining keeps every separator of every word and adds one between neighbours. */
  lemma {:induction false} JoinCount(words: seq<string>, sep: char, i: nat)
    requires i < |words|
    ensures multiset(Join(words, sep))[sep] >= |words| - 1 + multiset(words[i])[sep]
    decreases |words|
  {
    if |words| > 1 {
      var j := if i == 0 then 0 else i - 1;
      JoinCount(words[1..], sep, j);
      var tail := Join(words[1..], sep);
      assert multiset(words[0] + [sep] + tail) == multiset(words[0]) + multiset([sep]) + multiset(tail);
      if i > 0 {
        assert words[1..][j] == words[i];
      }
    }
  }

  /** `asString` of a command without args is its type name alone. */
  lemma AsStringNoArgs(t: CmdType)
    ensures AsString(Cmd(t, [])) == Name(t)
  {
  }

  /** Appending an argument appends one space and the argument, verbatim. */
  lemma {:induction false} AsStringAppend(t: CmdType, args: seq<string>, a: string)
    ensures AsString(Cmd(t, args + [a])) == AsString(Cmd(t, args)) + [SEP] + a
  {
    JoinSnoc([Name(t)] + args, SEP, a);
    assert [Name(t)] + (args + [a]) == ([Name(t)] + args) + [a];
  }

  /** Join of a non-empty list followed by one more word. */
  lemma {:induction false} JoinSnoc(words: seq<string>, sep: char, w: string)
    requires |words| >= 1
    ensures Join(words + [w], sep) == Join(words, sep) + [sep] + w
    decreases |words|
  {
    if |words| == 1 {
      assert words + [w] == [words[0], w];
      assert [words[0], w][1..] == [w];
    } else {
      JoinSnoc(words[1..], sep, w);
      assert (words + [w])[1..] == words[1..] + [w];
    }
  }

  // ---------------------------------------------------------------------
  // Properties of fromString

  /** The empty line is not a command: its single word is empty. */
  lemma ParseEmpty()
    ensures Parse("") == None
  {
  }

  /** Round trip: commands whose args have no space survive encoding and decoding. */
  lemma RoundTrip(c: Cmd)
    requires forall i :: 0 <= i < |c.args| ==> SEP !in c.args[i]
    ensures Parse(AsString(c)) == Some(c)
  {
    var words := [Name(c.kind)] + c.args;
    forall i | 0 <= i < |words| ensures SEP !in words[i] {
      if i == 0 { NameHasNoSpace(c.kind); } else { assert words[i] == c.args[i - 1]; }
    }
    SplitJoin(words, SEP);
    assert words[1..] == c.args;
  }

  /** A command without args decodes back with an empty args list. */
  lemma RoundTripNoArgs(t: CmdType)
    ensures Parse(Name(t)) == Some(Cmd(t, []))
  {
    RoundTrip(Cmd(t, []));
  }

  /** Lossy case: an arg containing a space comes back as more args than were sent. */
  lemma LossyArgs(c: Cmd, i: nat)
    requires i < |c.args| && SEP in c.args[i]
    ensures Parse(AsString(c)).Some?
    ensures Parse(AsString(c)).value.kind == c.kind
    ensures |Parse(AsString(c)).value.args| > |c.args|
  {
    NameHasNoSpace(c.kind);
    var rest := Join(c.args, SEP);
    assert [Name(c.kind)] + c.args == [Name(c.kind)] + c.args;
    assert AsString(c) == Name(c.kind) + [SEP] + rest;
    SplitPrefix(Name(c.kind), SEP, rest);
    JoinCount(c.args, SEP, i);
    SplitCount(rest, SEP);
    assert multiset(c.args[i])[SEP] >= 1;
  }
}
