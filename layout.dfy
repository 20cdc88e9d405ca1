/**
 * Where the pieces of a concatenated string lie: the positions at which the
 * matchers find the digit runs and separators of a printed EVR. Nothing here
 * knows about EVRs; the facts are about `+` on strings only.
 */
module Layout {

  /** `s` holds `a.b` and nothing else; `b` starts at `q`. */
  predicate Dotted2At(s: string, q: nat, a: string, b: string) {
    && q == |a| + 1 && |s| == q + |b|
    && s[0..q - 1] == a && s[q - 1] == '.'
    && s[q..|s|] == b
  }

  /** `s` holds `a.b.c` from position `p` to its end; `b` starts at `q` and `c` at `r`. */
  predicate Dotted3At(s: string, p: nat, q: nat, r: nat, a: string, b: string, c: string) {
    && q == p + |a| + 1 && r == q + |b| + 1 && |s| == r + |c|
    && s[p..q - 1] == a && s[q - 1] == '.'
    && s[q..r - 1] == b && s[r - 1] == '.'
    && s[r..|s|] == c
  }

  /** In `a + [sep] + t` the separator sits between `a` and `t`. */
  lemma AfterSeparator(a: string, sep: char, t: string)
    ensures var s := a + [sep] + t;
      && |s| == |a| + 1 + |t|
      && s[0..|a|] == a && s[|a|] == sep && s[|a| + 1..|s|] == t
  {
  }

  lemma Dotted2(a: string, b: string)
    ensures Dotted2At(a + "." + b, |a| + 1, a, b)
  {
    AfterSeparator(a, '.', b);
  }

  lemma Dotted3Suffix(s: string, p: nat, a: string, b: string, c: string)
    requires p <= |s| && s[p..] == a + "." + b + "." + c
    ensures Dotted3At(s, p, p + |a| + 1, p + |a| + |b| + 2, a, b, c)
  {
    var t := a + "." + b + "." + c;
    var q := p + |a| + 1;
    var r := q + |b| + 1;
    assert s[p..q - 1] == t[..|a|];
    assert s[q..r - 1] == t[|a| + 1..|a| + 1 + |b|];
    assert s[r..|s|] == t[|a| + |b| + 2..];
  }

  lemma Dotted3(a: string, b: string, c: string)
    ensures Dotted3At(a + "." + b + "." + c, 0, |a| + 1, |a| + |b| + 2, a, b, c)
  {
    var s := a + "." + b + "." + c;
    assert s[0..] == s;
    Dotted3Suffix(s, 0, a, b, c);
  }

  /** `e + [sep] + a.b.c`: the prefix, the separator, then `a.b.c` from `|e| + 1`. */
  lemma PrefixedDotted3(e: string, sep: char, a: string, b: string, c: string)
    ensures var s := e + [sep] + (a + "." + b + "." + c); var p := |e| + 1;
      s[0..|e|] == e && s[|e|] == sep && Dotted3At(s, p, p + |a| + 1, p + |a| + |b| + 2, a, b, c)
  {
    var t := a + "." + b + "." + c;
    var s := e + [sep] + t;
    AfterSeparator(e, sep, t);
    assert s[|e| + 1..] == t;
    Dotted3Suffix(s, |e| + 1, a, b, c);
  }

  /** Splitting the first run `head + last` of `a.b.c` between `head` and its last character. */
  lemma SplitFirst(s: string, q: nat, r: nat, head: string, last: string, b: string, c: string)
    requires Dotted3At(s, 0, q, r, head + last, b, c)
    ensures Dotted3At(s, |head|, q, r, last, b, c)
    ensures s[0..|head|] == head
  {
    var a := head + last;
    assert s[0..|head|] == s[0..|a|][..|head|];
    assert s[|head|..|a|] == s[0..|a|][|head|..];
  }

  /** The nightly release `0.0.n<time>git<hash>`: its fixed characters and its stage. */
  lemma NightlyLayout(time: string, hash: string)
    ensures var s := "0.0.n" + time + "git" + hash; var st := "n" + time + "git" + hash;
      && s[0] == '0' && s[1] == '.' && s[2] == '0' && s[3] == '.' && s[4] == 'n'
      && s[4..|s|] == st && |st| == |time| + |hash| + 4
      && 5 + |time| < |s| && s[5 + |time|] == 'g'
      && st[|st| - 1] == (if hash == [] then 't' else hash[|hash| - 1])
      && ('\n' in st <==> '\n' in time || '\n' in hash)
  {
    var s := "0.0.n" + time + "git" + hash;
    var st := "n" + time + "git" + hash;
    assert s == "0.0." + st;
  }
}
