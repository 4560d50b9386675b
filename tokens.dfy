/**
 * The leaf tokens of an auto-arg-parse grammar: the parsed state every token
 * carries, switch flags, and typed value arguments with their converters.
 *
 * The input vector is a `seq<string>`; the pair of iterators handed to every
 * `parse` is a `Cursor` of two indices into it.
 */
module Tokens {

  /** Whether a token must appear in the input or may be left out. */
  datatype Policy = Mandatory | Optional

  datatype Option<T> = None | Some(value: T)

  datatype Result<T, E> = Success(value: T) | Failure(error: E)

  /**
   * A converter turns one raw input token into a typed value, or rejects it
   * with a human-readable explanation (the `ErrorMessage` it throws).
   */
  type Converter<T> = string -> Result<T, string>

  /** The failure raised when a mandatory argument's converter rejects its token. */
  datatype ConversionFailure = FailedArgConversion(argName: string, explanation: string)

  /** The iterator pair `first`/`last` over the input vector, as indices. */
  datatype Cursor = Cursor(first: nat, last: nat)

  /**
   * The state shared by every flag and argument: an immutable policy and
   * description, and whether the token has been parsed.
   */
  class ParseToken {
    const policy: Policy
    const description: string
    var parsed: bool

    constructor (policy: Policy, description: string)
      ensures this.policy == policy && this.description == description
      ensures !parsed
    {
      this.policy := policy;
      this.description := description;
      parsed := false;
    }

    /** Whether this token was successfully parsed. */
    function Parsed(): (b: bool)
      reads this
      ensures b <==> parsed
    {
      parsed
    }

    /** The conversion of a token to `bool`: the same answer as `Parsed`. */
    function AsBool(): (b: bool)
      reads this
      ensures b == Parsed()
    {
      Parsed()
    }
  }

  /** A switch flag: present or absent, no payload. */
  class Flag {
    const token: ParseToken

    constructor (policy: Policy, description: string)
      ensures fresh(token)
      ensures token.policy == policy && token.description == description
      ensures !token.parsed
    {
      token := new ParseToken(policy, description);
    }

    /**
     * Being selected by name is the whole match: the flag becomes parsed and
     * neither end of the cursor moves (the parent has already consumed the
     * flag's name).
     */
    method Parse(c: Cursor) returns (next: Cursor)
      modifies token
      ensures token.parsed
      ensures next == c
    {
      token.parsed := true;
      next := c;
    }
  }

  /**
   * A positional argument of type `T`: a name, a converter and the last value
   * it produced. `T(0)` stands for the default construction of the value.
   */
  class Arg<T(0)> {
    const token: ParseToken
    const name: string
    const convert: Converter<T>
    var parsedValue: T

    constructor (name: string, policy: Policy, description: string, convert: Converter<T>)
      ensures fresh(token)
      ensures this.name == name && this.convert == convert
      ensures token.policy == policy && token.description == description
      ensures !token.parsed
    {
      token := new ParseToken(policy, description);
      this.name := name;
      this.convert := convert;
    }

    /**
     * Converts the token under the cursor. On success the value is stored,
     * the cursor moves past the token and the argument is parsed. On failure
     * the argument is unparsed and the cursor stays put; an optional argument
     * then returns quietly, a mandatory one reports a conversion failure
     * carrying its name and the converter's explanation.
     */
    method Parse(tokens: seq<string>, c: Cursor) returns (next: Cursor, failure: Option<ConversionFailure>)
      requires c.first < c.last <= |tokens|
      modifies this, token
      ensures next.last == c.last
      ensures convert(tokens[c.first]).Success? ==>
        && token.parsed
        && parsedValue == convert(tokens[c.first]).value
        && next.first == c.first + 1
        && failure == None
      ensures convert(tokens[c.first]).Failure? ==>
        && !token.parsed
        && next == c
        && failure == (if token.policy == Mandatory
                       then Some(FailedArgConversion(name, convert(tokens[c.first]).error))
                       else None)
    {
      token.parsed := false;
      var converted := convert(tokens[c.first]);
      if converted.Success? {
        parsedValue := converted.value;
        next := Cursor(c.first + 1, c.last);
        token.parsed := true;
        failure := None;
      } else {
        next := c;
        if token.policy == Mandatory {
          failure := Some(FailedArgConversion(name, converted.error));
        } else {
          failure := None;
        }
      }
    }

    /** The stored value; it is unspecified until a conversion succeeded. */
    function Get(): (v: T)
      reads this
      ensures v == parsedValue
    {
      parsedValue
    }
  }
}
