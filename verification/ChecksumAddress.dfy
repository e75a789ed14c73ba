/** Mixed-case checksum form of an address (EIP-55, section "Specification"). The hash is a parameter. */
module ChecksumAddress {
  import opened Common

  /** 32 bytes for any text. */
  type Keccak = string -> seq<nat>

  ghost predicate IsKeccak(keccak: Keccak) {
    forall text :: |keccak(text)| == 32
  }

  predicate IsDigit(c: char) {
    '0' <= c <= '9'
  }

  function Lower(c: char): char {
    if 'A' <= c <= 'Z' then (c as int + 32) as char else c
  }

  function Upper(c: char): char {
    if 'a' <= c <= 'z' then (c as int - 32) as char else c
  }

  function LowerAll(text: string): (r: string)
    ensures |r| == |text|
  {
    seq(|text|, i requires 0 <= i < |text| => Lower(text[i]))
  }

  /** The address in lower case without its prefix: what is hashed. */
  function Body(addr: string): string {
    var lower := LowerAll(addr);
    if "0x" <= lower then lower[2..] else lower
  }

  /** Bit `4 * i` of the hash, counted from the most significant one. */
  predicate HashBit(hash: seq<nat>, i: nat)
    requires i / 2 < |hash|
  {
    hash[i / 2] / (if i % 2 == 0 then 0x80 else 0x08) % 2 == 1
  }

  function Cased(hash: seq<nat>, i: nat, c: char): char
    requires IsDigit(c) || i / 2 < |hash|
  {
    if IsDigit(c) then c else if HashBit(hash, i) then Upper(c) else Lower(c)
  }

  /** A letter past the end of the hash aborts the computation. */
  ghost predicate FitsHash(body: string) {
    forall i :: 64 <= i < |body| ==> IsDigit(body[i])
  }

  ghost function ChecksumForm(keccak: Keccak, addr: string): (r: string)
    requires IsKeccak(keccak) && FitsHash(Body(addr))
    ensures |r| == 2 + |Body(addr)|
  {
    var body := Body(addr);
    "0x" + seq(|body|, i requires 0 <= i < |body| => Cased(keccak(body), i, body[i]))
  }

  /** `None` stands for the abort. */
  method Checksum(keccak: Keccak, addr: string) returns (r: Option<string>)
    requires IsKeccak(keccak)
    ensures r.Some? <==> FitsHash(Body(addr))
    ensures r.Some? ==> r.value == ChecksumForm(keccak, addr)
  {
    var lower := LowerAll(addr);
    if "0x" <= lower {
      lower := lower[2..];
    }
    var hash := keccak(lower);
    var result: string := "0x";
    for i := 0 to |lower|
      invariant |result| == 2 + i && result[..2] == "0x"
      invariant forall j :: 64 <= j < i ==> IsDigit(lower[j])
      invariant forall j :: 0 <= j < i ==> (IsDigit(lower[j]) || j < 64) && result[2 + j] == Cased(hash, j, lower[j])
    {
      var c := lower[i];
      if IsDigit(c) {
        result := result + [c];
      } else {
        if i / 2 >= |hash| {
          return None;
        }
        if HashBit(hash, i) {
          result := result + [Upper(c)];
        } else {
          result := result + [Lower(c)];
        }
      }
    }
    assert FitsHash(lower);
    assert result == ChecksumForm(keccak, addr) by {
      assert result == result[..2] + result[2..];
      assert result[2..] == ChecksumForm(keccak, addr)[2..];
    }
    r := Some(result);
  }

  method IsValidChecksumAddr(keccak: Keccak, addr: string) returns (r: Option<bool>)
    requires IsKeccak(keccak)
    ensures r.Some? <==> FitsHash(Body(addr))
    ensures r.Some? ==> (r.value <==> addr == ChecksumForm(keccak, addr))
  {
    var form := Checksum(keccak, addr);
    r := if form.Some? then Some(addr == form.value) else None;
  }

  // ---------- consequences ----------

  lemma CasingKeepsLower(c: char)
    ensures Lower(Upper(Lower(c))) == Lower(c) && Lower(Lower(c)) == Lower(c)
  {
  }

  /** The form spells the same address: only upper and lower case differ. */
  lemma FormKeepsBody(keccak: Keccak, addr: string)
    requires IsKeccak(keccak) && FitsHash(Body(addr))
    ensures LowerAll(ChecksumForm(keccak, addr)) == "0x" + Body(addr)
    ensures Body(ChecksumForm(keccak, addr)) == Body(addr)
  {
    var form, body := ChecksumForm(keccak, addr), Body(addr);
    var lower := LowerAll(form);
    forall i | 0 <= i < |body| ensures lower[2 + i] == body[i] {
      BodyIsLower(addr, i);
      CasingKeepsLower(body[i]);
    }
    assert lower[..2] == "0x" && lower[2..] == body;
    assert lower == lower[..2] + lower[2..];
  }

  lemma BodyIsLower(addr: string, i: nat)
    requires i < |Body(addr)|
    ensures Lower(Body(addr)[i]) == Body(addr)[i]
  {
    var k := if "0x" <= LowerAll(addr) then i + 2 else i;
    CasingKeepsLower(addr[k]);
  }

  /** Digit `i` of the hash written in hexadecimal. */
  function HexDigit(hash: seq<nat>, i: nat): nat
    requires i / 2 < |hash|
  {
    if i % 2 == 0 then hash[i / 2] / 0x10 else hash[i / 2] % 0x10
  }

  /** The rule as the standard words it: a letter is a capital exactly when its digit of the hash is 8 or more. */
  lemma CapitalIffHashDigitIsHigh(keccak: Keccak, addr: string, i: nat)
    requires IsKeccak(keccak) && FitsHash(Body(addr))
    requires i < |Body(addr)| && 'a' <= Body(addr)[i] <= 'z'
    requires keccak(Body(addr))[i / 2] < 0x100
    ensures var c := ChecksumForm(keccak, addr)[2 + i];
            && Lower(c) == Body(addr)[i]
            && ('A' <= c <= 'Z' <==> HexDigit(keccak(Body(addr)), i) >= 8)
  {
    var b := keccak(Body(addr))[i / 2];
    assert b / 0x80 % 2 == 1 <==> b / 0x10 >= 8;
    assert b / 0x08 % 2 == 1 <==> b % 0x10 >= 8;
  }

  lemma ChecksumIsIdempotent(keccak: Keccak, addr: string)
    requires IsKeccak(keccak) && FitsHash(Body(addr))
    ensures ChecksumForm(keccak, ChecksumForm(keccak, addr)) == ChecksumForm(keccak, addr)
  {
    FormKeepsBody(keccak, addr);
  }

  /** Neither the case of the input nor whether it carries the prefix matters. */
  lemma ChecksumIgnoresCaseAndPrefix(keccak: Keccak, addr: string, other: string)
    requires IsKeccak(keccak) && FitsHash(Body(addr))
    requires Body(addr) == Body(other)
    ensures FitsHash(Body(other)) && ChecksumForm(keccak, addr) == ChecksumForm(keccak, other)
  {
  }

  /** An address without its prefix has the same form as with it. */
  lemma PrefixIsOptional(keccak: Keccak, addr: string)
    requires IsKeccak(keccak) && FitsHash(Body(addr))
    requires !("0x" <= LowerAll(addr))
    ensures FitsHash(Body("0x" + addr)) && ChecksumForm(keccak, "0x" + addr) == ChecksumForm(keccak, addr)
  {
    var prefixed := LowerAll("0x" + addr);
    assert prefixed[..2] == "0x" && prefixed[2..] == LowerAll(addr);
    ChecksumIgnoresCaseAndPrefix(keccak, addr, "0x" + addr);
  }

  /** Among all casings of a prefixed address exactly one is accepted: its checksum form. */
  lemma ExactlyOneCasingIsValid(keccak: Keccak, addr: string)
    requires IsKeccak(keccak) && FitsHash(Body(addr))
    requires "0x" <= LowerAll(addr)
    ensures var form := ChecksumForm(keccak, addr);
            && LowerAll(form) == LowerAll(addr)
            && forall casing: string :: LowerAll(casing) == LowerAll(addr) ==>
                 (FitsHash(Body(casing)) && casing == ChecksumForm(keccak, casing) <==> casing == form)
  {
    var form := ChecksumForm(keccak, addr);
    FormKeepsBody(keccak, addr);
    assert LowerAll(addr) == LowerAll(addr)[..2] + LowerAll(addr)[2..];
    forall casing: string | LowerAll(casing) == LowerAll(addr)
      ensures FitsHash(Body(casing)) && ChecksumForm(keccak, casing) == form
    {
      ChecksumIgnoresCaseAndPrefix(keccak, addr, casing);
    }
  }
}
