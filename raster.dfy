/**
 * libraster's `say_hello`: greets a non-empty name on an output stream, and rejects
 * an empty one before writing anything.
 */
module Raster {
  import opened Wrappers

  /** An output stream, seen as the text written to it so far. */
  class OStream {
    var text: string

    constructor ()
      ensures text == ""
    {
      text := "";
    }

    /** `o << s`: appends s. */
    method Write(s: string)
      modifies this
      ensures text == old(text) + s
    {
      text := text + s;
    }
  }

  const GreetingPrefix := "Hello, "
  const GreetingSuffix := "!\n"

  /** The greeting for `n`: "Hello, " + n + "!\n" (`endl` ends the line). */
  function Greeting(n: string): (g: string)
    ensures |g| == |GreetingPrefix| + |n| + |GreetingSuffix|
    ensures g[..|GreetingPrefix|] == GreetingPrefix
    ensures g[|GreetingPrefix|..|GreetingPrefix| + |n|] == n
    ensures g[|GreetingPrefix| + |n|..] == GreetingSuffix
  {
    GreetingPrefix + n + GreetingSuffix
  }

  /** The name a greeting was written for. */
  function Greeted(g: string): (n: string)
    requires |g| >= |GreetingPrefix| + |GreetingSuffix|
  {
    g[|GreetingPrefix|..|g| - |GreetingSuffix|]
  }

  /** The name can be read back from its greeting, so distinct names get distinct greetings. */
  lemma GreetedGreeting(n: string)
    ensures Greeted(Greeting(n)) == n
  {
  }

  lemma GreetingInjective(n: string, m: string)
    requires Greeting(n) == Greeting(m)
    ensures n == m
  {
    GreetedGreeting(n);
    GreetedGreeting(m);
  }

  /**
   * `say_hello`: an empty name fails with "empty name" and leaves the stream alone;
   * any other name appends exactly its greeting, written in four pieces.
   */
  method SayHello(o: OStream, n: string) returns (r: Outcome<string>)
    modifies o
    ensures n == "" <==> r == Fail("empty name")
    ensures r.Pass? <==> n != ""
    ensures n == "" ==> o.text == old(o.text)
    ensures n != "" ==> o.text == old(o.text) + Greeting(n)
  {
    if n == "" {
      return Fail("empty name");
    }
    o.Write("Hello, ");
    o.Write(n);
    o.Write("!");
    o.Write("\n");
    assert o.text == old(o.text) + "Hello, " + n + "!" + "\n";
    return Pass;
  }

  /** The "Basics" test: greeting "World" on a fresh stream writes "Hello, World!\n". */
  method Basics() returns (r: Outcome<string>, text: string)
    ensures r == Pass && text == "Hello, World!\n"
  {
    var o := new OStream();
    r := SayHello(o, "World");
    text := o.text;
  }

  /** The "Empty name" test: the call fails with "empty name" and the stream stays empty. */
  method EmptyName() returns (r: Outcome<string>, text: string)
    ensures r == Fail("empty name") && text == ""
  {
    var o := new OStream();
    r := SayHello(o, "");
    text := o.text;
  }
}
