/** Null-terminated strings in character arrays. */
module CStrings {
  import opened Sectors

  type Name = seq<byte>

  /** The string in a character array. */
  function CStr(bs: seq<byte>): (n: Name)
    ensures |n| <= |bs| && 0 !in n
  {
    if bs == [] || bs[0] == 0 then [] else [bs[0]] + CStr(bs[1..])
  }

  lemma {:induction false} CStrOf(name: Name, rest: seq<byte>)
    requires 0 !in name
    ensures CStr(name + [0] + rest) == name
  {
    if name != [] {
      CStrOf(name[1..], rest);
      assert (name + [0] + rest)[1..] == name[1..] + [0] + rest;
    } else {
      assert (name + [0] + rest)[0] == 0;
    }
  }
}
