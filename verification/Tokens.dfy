/**
 Splitting a command line into arguments, inside the line's own buffer (strops_split_argv in lib/strops.c).
 A text is what stands before the buffer's terminating zero.
 */
module Tokens {
  import opened Basics

  predicate EndsWord(c: char) {
    c == ' ' || c == '\n'
  }

  /** The characters of an unquoted argument. */
  function Word(s: string): (w: string)
    ensures w <= s && (|w| < |s| ==> EndsWord(s[|w|])) && forall i :: 0 <= i < |w| ==> !EndsWord(w[i])
  {
    if s == [] || EndsWord(s[0]) then [] else [s[0]] + Word(s[1..])
  }

  /** The characters of a quoted argument, whose opening quote has been read. */
  function Quoted(s: string): (w: string)
    ensures w <= s && (|w| < |s| ==> s[|w|] == '"') && forall i :: 0 <= i < |w| ==> w[i] != '"'
  {
    if s == [] || s[0] == '"' then [] else [s[0]] + Quoted(s[1..])
  }

  /** What stands behind the first `n` characters and the one that ended them. */
  function Behind(s: string, n: nat): string {
    if n < |s| then s[n + 1..] else []
  }

  /** The arguments on a line.  The character that ends an unquoted one is skipped, even if it is a newline. */
  function Arguments(s: string): seq<string>
    decreases |s|
  {
    if s == [] || s[0] == '\n' then []
    else if s[0] == ' ' then Arguments(s[1..])
    else if s[0] == '"' then [Quoted(s[1..])] + Arguments(Behind(s[1..], |Quoted(s[1..])|))
    else [Word(s)] + Arguments(Behind(s, |Word(s)|))
  }

  // ---- Printed lines -----------------------------------------------------------------------------

  datatype Arg = Bare(text: string) | InQuotes(text: string)

  /** Bare arguments have no separator and do not start with a quote; quoted ones hold anything but quotes. */
  predicate Printable(a: Arg) {
    match a
    case Bare(w) => w != [] && w[0] != '"' && ' ' !in w && '\n' !in w
    case InQuotes(w) => '"' !in w
  }

  function Show(a: Arg): string {
    match a
    case Bare(w) => w
    case InQuotes(w) => "\"" + w + "\""
  }

  /** An argument behind some spaces. */
  datatype Item = Item(indent: nat, arg: Arg)

  function Spaces(n: nat): (s: string)
    ensures |s| == n && forall i :: 0 <= i < n ==> s[i] == ' '
  {
    seq(n, _ => ' ')
  }

  /** One space must follow an unquoted argument before the next one. */
  function Gap(items: seq<Item>): string
    requires items != []
  {
    if |items| > 1 && items[0].arg.Bare? then " " else ""
  }

  function Print(items: seq<Item>): string {
    if items == [] then []
    else
      Spaces(items[0].indent) + Show(items[0].arg) + Gap(items) + Print(items[1..])
  }

  function Texts(items: seq<Item>): seq<string> {
    if items == [] then [] else [items[0].arg.text] + Texts(items[1..])
  }

  ghost predicate AllPrintable(items: seq<Item>) {
    forall i :: 0 <= i < |items| ==> Printable(items[i].arg)
  }

  /** A newline right behind an unquoted argument does not end the line. */
  predicate NewlineSkipped(items: seq<Item>, trail: nat) {
    trail == 0 && items != [] && items[|items| - 1].arg.Bare?
  }

  /** The arguments behind the newline, if that was passed over. */
  function Beyond(skipped: bool, tail: string): seq<string> {
    if tail != [] && skipped then Arguments(tail[1..]) else []
  }

  lemma {:induction false} SkipSpaces(n: nat, s: string)
    ensures Arguments(Spaces(n) + s) == Arguments(s)
  {
    if n == 0 {
      assert Spaces(0) + s == s;
    } else {
      SkipSpaces(n - 1, s);
      assert (Spaces(n) + s)[1..] == Spaces(n - 1) + s;
    }
  }

  lemma {:induction false} WordIs(w: string, rest: string)
    requires forall i :: 0 <= i < |w| ==> !EndsWord(w[i])
    requires rest == [] || EndsWord(rest[0])
    ensures Word(w + rest) == w
  {
    if w == [] {
      assert w + rest == rest;
    } else {
      WordIs(w[1..], rest);
      assert (w + rest)[1..] == w[1..] + rest;
    }
  }

  lemma {:induction false} QuotedIs(w: string, rest: string)
    requires '"' !in w && rest != [] && rest[0] == '"'
    ensures Quoted(w + rest) == w
  {
    if w == [] {
      assert w + rest == rest;
    } else {
      QuotedIs(w[1..], rest);
      assert (w + rest)[1..] == w[1..] + rest;
    }
  }

  lemma {:induction false} BareFirst(w: string, rest: string)
    requires Printable(Bare(w)) && (rest == [] || EndsWord(rest[0]))
    ensures Arguments(w + rest) == [w] + Arguments(if rest == [] then [] else rest[1..])
  {
    WordIs(w, rest);
    assert Behind(w + rest, |w|) == if rest == [] then [] else rest[1..];
  }

  lemma {:induction false} QuotedFirst(w: string, rest: string)
    requires Printable(InQuotes(w))
    ensures Arguments("\"" + w + "\"" + rest) == [w] + Arguments(rest)
  {
    var s := "\"" + w + "\"" + rest;
    assert s[1..] == w + ("\"" + rest);
    QuotedIs(w, "\"" + rest);
    assert Behind(s[1..], |w|) == rest;
  }

  lemma Append(a: seq<string>, b: seq<string>, c: seq<string>)
    ensures a + (b + c) == a + b + c && a + [] == a && [] + a == a
  {
  }

  lemma {:induction false} SkippedCons(items: seq<Item>, trail: nat)
    requires items != []
    ensures var a, later := items[0].arg, items[1..];
      NewlineSkipped(items, trail) ==
        if later != [] || a.InQuotes? then NewlineSkipped(later, trail) else trail == 0
    ensures |items| == 1 ==> Texts(items) == [items[0].arg.text] && Texts(items[1..]) == []
  {
  }

  lemma {:induction false} BareThenMore(w: string, line: string)
    requires Printable(Bare(w))
    ensures Arguments(w + (" " + line)) == [w] + Arguments(line)
  {
    BareFirst(w, " " + line);
    assert (" " + line)[1..] == line;
  }

  lemma {:induction false} LineEnd(trail: nat, tail: string)
    requires tail == [] || tail[0] == '\n'
    ensures Arguments(Spaces(trail) + tail) == []
  {
    SkipSpaces(trail, tail);
  }

  lemma {:induction false} BareThenEnd(w: string, trail: nat, tail: string)
    requires Printable(Bare(w)) && (tail == [] || tail[0] == '\n')
    ensures Arguments(w + (Spaces(trail) + tail)) == [w] + Beyond(trail == 0, tail)
  {
    if trail > 0 {
      assert Spaces(trail) + tail == " " + (Spaces(trail - 1) + tail);
      BareThenMore(w, Spaces(trail - 1) + tail);
      LineEnd(trail - 1, tail);
    } else {
      assert Spaces(0) + tail == tail;
      BareFirst(w, tail);
    }
  }

  lemma {:induction false} BareLine(w: string, later: seq<Item>, trail: nat, tail: string, rest: string)
    requires Printable(Bare(w)) && (tail == [] || tail[0] == '\n')
    requires rest == (if later != [] then " " else "") + (Print(later) + (Spaces(trail) + tail))
    ensures Arguments(w + rest) == [w] +
      (if later != [] then Arguments(Print(later) + (Spaces(trail) + tail))
       else if tail != [] && trail == 0 then Arguments(tail[1..]) else [])
  {
    if later != [] {
      BareThenMore(w, Print(later) + (Spaces(trail) + tail));
    } else {
      assert rest == Spaces(trail) + tail;
      BareThenEnd(w, trail, tail);
    }
  }

  lemma {:induction false} FirstItem(a: Arg, later: seq<Item>, trail: nat, tail: string, rest: string)
    requires Printable(a) && (tail == [] || tail[0] == '\n')
    requires rest == (if later != [] && a.Bare? then " " else "") + (Print(later) + (Spaces(trail) + tail))
    ensures Arguments(Show(a) + rest) == [a.text] +
      (if later != [] || a.InQuotes? then Arguments(Print(later) + (Spaces(trail) + tail))
       else Beyond(trail == 0, tail))
  {
    match a {
      case InQuotes(w) =>
        assert rest == Print(later) + (Spaces(trail) + tail);
        QuotedFirst(w, rest);
      case Bare(w) =>
        BareLine(w, later, trail, tail, rest);
    }
  }

  lemma {:induction false} TextsCons(items: seq<Item>, trail: nat, tail: string, rest: string)
    requires items != [] && Printable(items[0].arg) && (tail == [] || tail[0] == '\n')
    requires rest == Gap(items) + (Print(items[1..]) + (Spaces(trail) + tail))
    requires Arguments(Print(items[1..]) + (Spaces(trail) + tail))
          == Texts(items[1..]) + Beyond(NewlineSkipped(items[1..], trail), tail)
    ensures Arguments(Show(items[0].arg) + rest) == Texts(items) + Beyond(NewlineSkipped(items, trail), tail)
  {
    var a, later := items[0].arg, items[1..];
    FirstItem(a, later, trail, tail, rest);
    Append([a.text], Texts(later), Beyond(NewlineSkipped(later, trail), tail));
    SkippedCons(items, trail);
  }

  lemma Regroup(a: string, b: string, c: string, d: string, e: string, f: string)
    ensures a + b + c + d + e + f == a + (b + (c + (d + (e + f))))
    ensures d + e + f == d + (e + f)
  {
  }

  /** The first item of a printed line, and what follows it. */
  lemma {:induction false} SplitOff(items: seq<Item>, trail: nat, tail: string)
    requires items != []
    ensures Print(items) + Spaces(trail) + tail ==
      Spaces(items[0].indent) + (Show(items[0].arg) + (Gap(items) + (Print(items[1..]) + (Spaces(trail) + tail))))
    ensures Print(items[1..]) + Spaces(trail) + tail == Print(items[1..]) + (Spaces(trail) + tail)
  {
    Regroup(Spaces(items[0].indent), Show(items[0].arg), Gap(items), Print(items[1..]), Spaces(trail), tail);
  }

  /**
   A printed line gives back its arguments, up to the newline; only a newline right behind an unquoted argument
   is passed over, and then the next line's arguments follow.
   */
  lemma {:induction false} PrintedLine(items: seq<Item>, trail: nat, tail: string)
    requires AllPrintable(items) && (tail == [] || tail[0] == '\n')
    ensures Arguments(Print(items) + Spaces(trail) + tail)
         == Texts(items) + Beyond(NewlineSkipped(items, trail), tail)
  {
    if items == [] {
      assert Print(items) + Spaces(trail) + tail == Spaces(trail) + tail;
      SkipSpaces(trail, tail);
    } else {
      var a, later := items[0].arg, items[1..];
      var rest := Gap(items) + (Print(later) + (Spaces(trail) + tail));
      assert Arguments(Print(items) + Spaces(trail) + tail) == Arguments(Show(a) + rest) by {
        SplitOff(items, trail, tail);
        SkipSpaces(items[0].indent, Show(a) + rest);
      }
      SplitOff(items, trail, tail);
      PrintedLine(later, trail, tail);
      TextsCons(items, trail, tail, rest);
    }
  }

  /** A quote that is never closed lasts to the end of the text. */
  lemma {:induction false} UnclosedQuote(w: string)
    requires '"' !in w
    ensures Arguments("\"" + w) == [w]
  {
    var s := "\"" + w;
    assert s[1..] == w;
    assert Quoted(w) == w;
    assert Arguments(s) == [w] + Arguments([]);
  }

  // ---- The splitting, in place -------------------------------------------------------------------

  /** The C string at the start of some memory. */
  function CString(s: string): string {
    if s == [] || s[0] == '\0' then [] else [s[0]] + CString(s[1..])
  }

  /** The arguments one behind the other, each with its zero. */
  function Layout(args: seq<string>): string {
    if args == [] then [] else Layout(args[..|args| - 1]) + args[|args| - 1] + ['\0']
  }

  lemma {:induction false} LayoutSnoc(args: seq<string>, w: string)
    ensures Layout(args + [w]) == Layout(args) + w + ['\0']
  {
    assert (args + [w])[..|args|] == args;
  }

  lemma {:induction false} CStringIs(w: string, rest: string)
    requires '\0' !in w
    ensures CString(w + ['\0'] + rest) == w
  {
    if w != [] {
      CStringIs(w[1..], rest);
      assert (w + ['\0'] + rest)[1..] == w[1..] + ['\0'] + rest;
    }
  }

  /** An argument in the layout stays readable, whatever comes behind it. */
  lemma {:induction false} LayoutAt(args: seq<string>, k: nat, rest: string)
    requires k < |args| && '\0' !in args[k]
    ensures |Layout(args[..k])| <= |Layout(args) + rest|
    ensures CString((Layout(args) + rest)[|Layout(args[..k])|..]) == args[k]
  {
    var n := |args| - 1;
    var last := args[n] + ['\0'] + rest;
    assert Layout(args) + rest == Layout(args[..n]) + last;
    if k == n {
      CStringIs(args[n], rest);
    } else {
      LayoutAt(args[..n], k, last);
      assert args[..n][..k] == args[..k];
    }
  }

  /** The buffer from the read index on: what is left of the text, and its zero. */
  ghost predicate Unread(src: array<char>, text: string, inPtr: nat)
    reads src
  {
    && inPtr <= |text| < src.Length
    && (forall k :: inPtr <= k < |text| ==> src[k] == text[k])
    && src[|text|] == '\0'
  }

  lemma WordFrom(text: string, at: nat)
    requires at <= |text|
    ensures var w := Word(text[at..]);
      && at + |w| <= |text|
      && (forall k :: 0 <= k < |w| ==> w[k] == text[at + k] && !EndsWord(w[k]))
      && (at + |w| < |text| ==> EndsWord(text[at + |w|]))
  {
    var s, w := text[at..], Word(text[at..]);
    assert forall k :: 0 <= k < |w| ==> w[k] == s[k] == text[at + k];
  }

  lemma QuotedFrom(text: string, at: nat)
    requires at <= |text|
    ensures var w := Quoted(text[at..]);
      && at + |w| <= |text|
      && (forall k :: 0 <= k < |w| ==> w[k] == text[at + k] != '"')
      && (at + |w| < |text| ==> text[at + |w|] == '"')
  {
    var s, w := text[at..], Quoted(text[at..]);
    assert forall k :: 0 <= k < |w| ==> w[k] == s[k] == text[at + k];
  }

  lemma NoZero(text: string, at: nat, w: string)
    requires '\0' !in text && at + |w| <= |text| && forall k :: 0 <= k < |w| ==> w[k] == text[at + k]
    ensures '\0' !in w
  {
  }

  /** The copy loop for an unquoted argument: never writes ahead of what it reads. */
  method CopyWord(src: array<char>, inPtr: nat, outPtr: nat, ghost text: string, ghost w: string) returns (n: nat)
    requires Unread(src, text, inPtr) && '\0' !in text && outPtr <= inPtr && inPtr + |w| <= |text|
    requires forall k :: 0 <= k < |w| ==> w[k] == text[inPtr + k] && !EndsWord(w[k])
    requires inPtr + |w| < |text| ==> EndsWord(text[inPtr + |w|])
    modifies src
    ensures n == |w| && Unread(src, text, inPtr + n)
    ensures forall k :: 0 <= k < n ==> src[outPtr + k] == w[k]
    ensures forall k :: 0 <= k < outPtr || |text| < k < src.Length ==> src[k] == old(src[k])
  {
    n := 0;
    while src[inPtr + n] != ' ' && src[inPtr + n] != '\n' && src[inPtr + n] != '\0'
      invariant n <= |w| && Unread(src, text, inPtr + n)
      invariant n < |w| ==> src[inPtr + n] == w[n] && w[n] in text
      invariant forall k :: 0 <= k < n ==> src[outPtr + k] == w[k]
      invariant forall k :: 0 <= k < outPtr || |text| < k < src.Length ==> src[k] == old(src[k])
      decreases |w| - n
    {
      assert n < |w|;
      src[outPtr + n] := src[inPtr + n];
      n := n + 1;
    }
  }

  /** The copy loop for a quoted argument. */
  method CopyQuoted(src: array<char>, inPtr: nat, outPtr: nat, ghost text: string, ghost w: string) returns (n: nat)
    requires Unread(src, text, inPtr) && '\0' !in text && outPtr <= inPtr && inPtr + |w| <= |text|
    requires forall k :: 0 <= k < |w| ==> w[k] == text[inPtr + k] != '"'
    requires inPtr + |w| < |text| ==> text[inPtr + |w|] == '"'
    modifies src
    ensures n == |w| && Unread(src, text, inPtr + n)
    ensures forall k :: 0 <= k < n ==> src[outPtr + k] == w[k]
    ensures forall k :: 0 <= k < outPtr || |text| < k < src.Length ==> src[k] == old(src[k])
  {
    n := 0;
    while src[inPtr + n] != '"' && src[inPtr + n] != '\0'
      invariant n <= |w| && Unread(src, text, inPtr + n)
      invariant n < |w| ==> src[inPtr + n] == w[n] && w[n] in text
      invariant forall k :: 0 <= k < n ==> src[outPtr + k] == w[k]
      invariant forall k :: 0 <= k < outPtr || |text| < k < src.Length ==> src[k] == old(src[k])
      decreases |w| - n
    {
      assert n < |w|;
      src[outPtr + n] := src[inPtr + n];
      n := n + 1;
    }
  }

  method QuotedArgument(src: array<char>, at: nat, outPtr: nat, ghost text: string) returns (n: nat)
    requires Unread(src, text, at) && '\0' !in text && outPtr <= at
    modifies src
    ensures var w := Quoted(text[at..]);
      n == |w| && at + n <= |text| && '\0' !in w && forall k :: 0 <= k < n ==> src[outPtr + k] == w[k]
    ensures Unread(src, text, at + n) && (at + n < |text| ==> text[at + n] in text)
    ensures forall k :: 0 <= k < outPtr || |text| < k < src.Length ==> src[k] == old(src[k])
  {
    ghost var w := Quoted(text[at..]);
    QuotedFrom(text, at);
    NoZero(text, at, w);
    n := CopyQuoted(src, at, outPtr, text, w);
  }

  method WordArgument(src: array<char>, at: nat, outPtr: nat, ghost text: string) returns (n: nat)
    requires Unread(src, text, at) && '\0' !in text && outPtr <= at
    modifies src
    ensures var w := Word(text[at..]);
      n == |w| && at + n <= |text| && '\0' !in w && forall k :: 0 <= k < n ==> src[outPtr + k] == w[k]
    ensures Unread(src, text, at + n) && (at + n < |text| ==> text[at + n] in text)
    ensures forall k :: 0 <= k < outPtr || |text| < k < src.Length ==> src[k] == old(src[k])
  {
    ghost var w := Word(text[at..]);
    WordFrom(text, at);
    NoZero(text, at, w);
    n := CopyWord(src, at, outPtr, text, w);
  }

  ghost predicate LaidOut(src: array<char>, outPtr: nat, done: seq<string>)
    reads src
  {
    outPtr == |Layout(done)| <= src.Length && forall k :: 0 <= k < outPtr ==> src[k] == Layout(done)[k]
  }

  ghost predicate Pointers(argv: array<Option<nat>>, done: seq<string>)
    reads argv
  {
    |done| < argv.Length && forall k :: 0 <= k < |done| ==> argv[k] == Some(|Layout(done[..k])|)
  }

  /** The arguments found so far are laid out below the write index, the pointers to them stored. */
  ghost predicate Written(src: array<char>, argv: array<Option<nat>>, outPtr: nat, done: seq<string>)
    reads src, argv
  {
    LaidOut(src, outPtr, done) && Pointers(argv, done) && forall k :: 0 <= k < |done| ==> '\0' !in done[k]
  }

  /** Where the read index goes after an argument of n characters. */
  function After(text: string, at: nat, n: nat): nat {
    if at + n < |text| then at + n + 1 else at + n
  }

  lemma BehindAt(text: string, at: nat, n: nat)
    requires at + n <= |text|
    ensures Behind(text[at..], n) == text[After(text, at, n)..]
  {
  }

  lemma ArgumentsAt(text: string, at: nat)
    requires at < |text| && text[at] != '\n'
    ensures text[at] == ' ' ==> Arguments(text[at..]) == Arguments(text[at + 1..])
    ensures text[at] == '"' ==>
      var w := Quoted(text[at + 1..]);
      at + 1 + |w| <= |text| && Arguments(text[at..]) == [w] + Arguments(text[After(text, at + 1, |w|)..])
    ensures text[at] != ' ' && text[at] != '"' ==>
      var w := Word(text[at..]);
      0 < |w| && at + |w| <= |text| && Arguments(text[at..]) == [w] + Arguments(text[After(text, at, |w|)..])
  {
    var s := text[at..];
    assert s[1..] == text[at + 1..];
    WordFrom(text, at);
    QuotedFrom(text, at + 1);
    BehindAt(text, at, |Word(s)|);
    BehindAt(text, at + 1, |Quoted(s[1..])|);
  }

  method StorePointer(argv: array<Option<nat>>, argc: nat, outPtr: nat, ghost done: seq<string>, ghost w: string)
    requires Pointers(argv, done) && |done| == argc && argc + 1 < argv.Length && outPtr == |Layout(done)|
    modifies argv
    ensures Pointers(argv, done + [w])
  {
    argv[argc] := Some(outPtr);
    forall k | 0 <= k < argc + 1 ensures argv[k] == Some(|Layout((done + [w])[..k])|) {
      assert (done + [w])[..k] == done[..k];
      assert done[..|done|] == done;
    }
  }

  /** Store the pointer to an argument that was copied, and close it with a zero. */
  method Close(src: array<char>, argv: array<Option<nat>>, argc: nat, ghost text: string, ghost inPtr: nat, outPtr: nat,
               n: nat, ghost done: seq<string>, ghost w: string)
    requires Written(src, argv, outPtr, done) && |done| == argc && argc + 1 < argv.Length && |w| == n && '\0' !in w
    requires Unread(src, text, inPtr) && (outPtr + n < inPtr || (inPtr == |text| && outPtr + n <= |text|))
    requires forall k :: 0 <= k < n ==> src[outPtr + k] == w[k]
    modifies src, argv
    ensures Written(src, argv, outPtr + n + 1, done + [w]) && Unread(src, text, inPtr)
    ensures forall k :: |text| < k < src.Length ==> src[k] == old(src[k])
  {
    src[outPtr + n] := '\0';
    LayoutSnoc(done, w);
    assert LaidOut(src, outPtr + n + 1, done + [w]);
    StorePointer(argv, argc, outPtr, done, w);
  }

  /** The quoted branch. */
  method TakeQuoted(src: array<char>, argv: array<Option<nat>>, argc: nat, at: nat, outPtr: nat, ghost text: string,
                    ghost done: seq<string>)
    returns (inPtr: nat, outPtr': nat)
    requires Written(src, argv, outPtr, done) && |done| == argc && argc + 1 < argv.Length
    requires Unread(src, text, at) && '\0' !in text && outPtr <= at < |text| && text[at] == '"'
    modifies src, argv
    ensures var w := Quoted(text[at + 1..]);
      && inPtr == After(text, at + 1, |w|) && Written(src, argv, outPtr', done + [w]) && outPtr' <= inPtr
    ensures Unread(src, text, inPtr)
    ensures forall k :: |text| < k < src.Length ==> src[k] == old(src[k])
  {
    var n := QuotedArgument(src, at + 1, outPtr, text);
    ghost var w := Quoted(text[at + 1..]);
    inPtr := at + 1 + n;
    if src[inPtr] != '\0' {
      inPtr := inPtr + 1;
    }
    Close(src, argv, argc, text, inPtr, outPtr, n, done, w);
    outPtr' := outPtr + n + 1;
  }

  /** The unquoted branch. */
  method TakeWord(src: array<char>, argv: array<Option<nat>>, argc: nat, at: nat, outPtr: nat, ghost text: string,
                  ghost done: seq<string>)
    returns (inPtr: nat, outPtr': nat)
    requires Written(src, argv, outPtr, done) && |done| == argc && argc + 1 < argv.Length
    requires Unread(src, text, at) && '\0' !in text && outPtr <= at < |text| && !EndsWord(text[at])
    modifies src, argv
    ensures var w := Word(text[at..]);
      && inPtr == After(text, at, |w|) && Written(src, argv, outPtr', done + [w])
      && (outPtr' <= inPtr || (inPtr == |text| && outPtr' == |text| + 1))
    ensures Unread(src, text, inPtr)
    ensures forall k :: |text| < k < src.Length ==> src[k] == old(src[k])
  {
    var n := WordArgument(src, at, outPtr, text);
    ghost var w := Word(text[at..]);
    inPtr := at + n;
    if src[inPtr] != '\0' {
      inPtr := inPtr + 1;
    }
    Close(src, argv, argc, text, inPtr, outPtr, n, done, w);
    outPtr' := outPtr + n + 1;
  }

  /** The skipping of spaces before an argument. */
  method SkipBlanks(src: array<char>, at: nat, ghost text: string) returns (inPtr: nat)
    requires Unread(src, text, at) && '\0' !in text
    ensures at <= inPtr <= |text| && Arguments(text[inPtr..]) == Arguments(text[at..])
    ensures inPtr < |text| ==> text[inPtr] != ' '
  {
    inPtr := at;
    while src[inPtr] == ' '
      invariant at <= inPtr <= |text| && Arguments(text[inPtr..]) == Arguments(text[at..])
      decreases |text| - inPtr
    {
      ArgumentsAt(text, inPtr);
      inPtr := inPtr + 1;
    }
  }

  /** The line from the read index on gives the arguments that are still missing. */
  ghost predicate Split(text: string, inPtr: nat, outPtr: nat, done: seq<string>) {
    && inPtr <= |text|
    && Arguments(text) == done + Arguments(text[inPtr..])
    && (outPtr <= inPtr || (inPtr == |text| && outPtr == |text| + 1))
  }

  lemma {:induction false} SplitSnoc(text: string, at: nat, inPtr: nat, outPtr: nat, outPtr': nat,
                                     done: seq<string>, w: string)
    requires Split(text, at, outPtr, done)
    requires inPtr <= |text| && Arguments(text[at..]) == [w] + Arguments(text[inPtr..])
    requires outPtr' <= inPtr || (inPtr == |text| && outPtr' == |text| + 1)
    ensures Split(text, inPtr, outPtr', done + [w])
    ensures |done| < |Arguments(text)|
  {
    assert done + ([w] + Arguments(text[inPtr..])) == done + [w] + Arguments(text[inPtr..]);
  }

  /** One argument, after the spaces. */
  method TakeArgument(src: array<char>, argv: array<Option<nat>>, argc: nat, at: nat, outPtr: nat, ghost text: string,
                      ghost done: seq<string>)
    returns (inPtr: nat, outPtr': nat, ghost w: string)
    requires Written(src, argv, outPtr, done) && |done| == argc && |Arguments(text)| < argv.Length
    requires Unread(src, text, at) && '\0' !in text && Split(text, at, outPtr, done)
    requires at < |text| && !EndsWord(text[at])
    modifies src, argv
    ensures at < inPtr && Split(text, inPtr, outPtr', done + [w]) && Written(src, argv, outPtr', done + [w])
    ensures Unread(src, text, inPtr)
    ensures forall k :: |text| < k < src.Length ==> src[k] == old(src[k])
  {
    ArgumentsAt(text, at);
    if src[at] == '"' {
      w := Quoted(text[at + 1..]);
      SplitSnoc(text, at, After(text, at + 1, |w|), outPtr, 0, done, w);
      inPtr, outPtr' := TakeQuoted(src, argv, argc, at, outPtr, text, done);
    } else {
      w := Word(text[at..]);
      SplitSnoc(text, at, After(text, at, |w|), outPtr, 0, done, w);
      inPtr, outPtr' := TakeWord(src, argv, argc, at, outPtr, text, done);
    }
  }

  /** The arguments can be read through the pointers. */
  ghost predicate Readable(src: array<char>, argv: array<Option<nat>>, args: seq<string>)
    reads src, argv
  {
    && |args| < argv.Length && argv[|args|] == None
    && forall k :: 0 <= k < |args| ==>
         argv[k].Some? && argv[k].value <= src.Length && CString(src[argv[k].value..]) == args[k]
  }

  lemma WrittenReadable(src: array<char>, argv: array<Option<nat>>, outPtr: nat, args: seq<string>)
    requires Written(src, argv, outPtr, args) && argv[|args|] == None
    ensures Readable(src, argv, args)
  {
    var rest := src[outPtr..];
    assert src[..] == Layout(args) + rest;
    forall k | 0 <= k < |args|
      ensures argv[k].value <= src.Length && CString(src[argv[k].value..]) == args[k]
    {
      LayoutAt(args, k, rest);
      var p := |Layout(args[..k])|;
      assert src[p..] == src[..][p..];
    }
  }

  lemma {:induction false} EndOfLine(text: string, inPtr: nat, outPtr: nat, done: seq<string>)
    requires Split(text, inPtr, outPtr, done) && (inPtr < |text| ==> text[inPtr] == '\n')
    ensures done == Arguments(text)
  {
    assert done + [] == done;
  }

  /** strops_split_argv.  The caller's pointer array has room for the arguments and the closing null. */
  method SplitArgv(src: array<char>, argv: array<Option<nat>>, ghost text: string) returns (argc: nat)
    requires Unread(src, text, 0) && '\0' !in text && |Arguments(text)| < argv.Length
    modifies src, argv
    ensures argc == |Arguments(text)| && Readable(src, argv, Arguments(text))
    ensures forall k :: |text| < k < src.Length ==> src[k] == old(src[k])
  {
    argc := 0;
    var inPtr, outPtr := 0, 0;
    ghost var done: seq<string> := [];
    assert text[0..] == text;
    while src[inPtr] != '\n' && src[inPtr] != '\0'
      invariant Written(src, argv, outPtr, done) && argc == |done|
      invariant Unread(src, text, inPtr) && Split(text, inPtr, outPtr, done)
      invariant forall k :: |text| < k < src.Length ==> src[k] == old(src[k])
      decreases |text| - inPtr
    {
      inPtr := SkipBlanks(src, inPtr, text);
      if src[inPtr] == '\n' || src[inPtr] == '\0' {
        break;
      }
      ghost var w;
      inPtr, outPtr, w := TakeArgument(src, argv, argc, inPtr, outPtr, text, done);
      argc := argc + 1;
      done := done + [w];
    }
    EndOfLine(text, inPtr, outPtr, done);
    argv[argc] := None;
    WrittenReadable(src, argv, outPtr, done);
  }
}
