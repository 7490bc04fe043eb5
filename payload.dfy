/** The inline-button callback payloads: `utr_handler` encodes them as
    `f"approve:{user.id}"` and `f"reject:{user.id}"`; `button_handler` decodes
    them with `query.data.split(":")`, a two-name unpacking and `int(...)`. */
module Payload {
  import opened Wrappers
  import opened Text

  // ------------------------------------------------ decimal integers

  function DigitChar(d: nat): (c: char)
    requires d < 10
    ensures IsDigit(c)
  {
    ('0' as int + d) as char
  }

  function DigitValue(c: char): (d: nat)
    requires IsDigit(c)
    ensures d < 10 && DigitChar(d) == c
  {
    c as int - '0' as int
  }

  /** The decimal digits of `n`, most significant first, without leading zeros. */
  function NatToDecimal(n: nat): (s: string)
    ensures |s| >= 1 && AllDigits(s)
    ensures |s| > 1 ==> s[0] != '0'
    decreases n
  {
    if n < 10 then [DigitChar(n)]
    else
      var front := NatToDecimal(n / 10);
      var s := front + [DigitChar(n % 10)];
      assert s[0] == front[0];
      s
  }

  /** The number a string of decimal digits denotes. */
  function DecimalValue(s: string): nat
    requires AllDigits(s)
  {
    if s == [] then 0
    else 10 * DecimalValue(s[..|s| - 1]) + DigitValue(s[|s| - 1])
  }

  /** Reading back the digits of `n` gives `n`. */
  lemma {:induction false} DecimalRoundTrip(n: nat)
    ensures DecimalValue(NatToDecimal(n)) == n
    decreases n
  {
    var s := NatToDecimal(n);
    if n >= 10 {
      DecimalRoundTrip(n / 10);
      assert s[..|s| - 1] == NatToDecimal(n / 10);
    }
  }

  /** `f"{n}"` for an integer `n`. */
  function FormatInt(n: int): (s: string)
    ensures s != [] && ':' !in s
  {
    var digits := NatToDecimal(if n < 0 then -n else n);
    assert ':' !in digits by {
      forall k | 0 <= k < |digits| ensures digits[k] != ':' {
        assert IsDigit(digits[k]);
      }
    }
    if n < 0 then "-" + digits else digits
  }

  /** `int(s)` for an optional minus sign followed by decimal digits; any
      other text is refused (Python raises `ValueError`). */
  function ParseInt(s: string): (r: Option<int>)
    ensures r.Some? <==> (s != [] && AllDigits(s)) || (|s| >= 2 && s[0] == '-' && AllDigits(s[1..]))
    ensures r.Some? ==> ':' !in s
    ensures r.Some? && r.value < 0 ==> s[0] == '-'
  {
    assert (|s| >= 2 && s[0] == '-' && AllDigits(s[1..])) || (|s| >= 1 && AllDigits(s)) ==> ':' !in s by {
      if |s| >= 1 && (AllDigits(s) || (s[0] == '-' && AllDigits(s[1..]))) {
        forall k | 0 <= k < |s| ensures s[k] != ':' {
          if k > 0 { assert s[k] == s[1..][k - 1]; }
        }
      }
    }
    if |s| >= 2 && s[0] == '-' && AllDigits(s[1..]) then Some(-(DecimalValue(s[1..]) as int))
    else if |s| >= 1 && AllDigits(s) then Some(DecimalValue(s))
    else None
  }

  /** `int(f"{n}") == n`. */
  lemma ParseFormat(n: int)
    ensures ParseInt(FormatInt(n)) == Some(n)
  {
    var m := if n < 0 then -n else n;
    var digits := NatToDecimal(m);
    DecimalRoundTrip(m);
    if n < 0 {
      var s := "-" + digits;
      assert s[1..] == digits;
      assert s[0] == '-';
    } else {
      assert digits[0] != '-' by { assert IsDigit(digits[0]); }
    }
  }

  /** `ParseInt` accepts only digits with an optional leading minus sign, so
      never a text holding the payload separator. */
  lemma ParseIntSound(s: string, v: int)
    requires ParseInt(s) == Some(v)
    ensures s != [] && ':' !in s
    ensures AllDigits(s) || (s[0] == '-' && AllDigits(s[1..]))
  {
    if s[0] == '-' {
      assert !IsDigit(s[0]);
    }
    assert ':' !in s by {
      forall k | 0 <= k < |s| ensures s[k] != ':' {
        if k > 0 { assert s[k] == s[1..][k - 1]; }
      }
    }
  }

  // ------------------------------------------------ callback payloads

  const ApproveTag := "approve"
  const RejectTag := "reject"

  /** A decoded payload: the action tag and the target user id. */
  datatype Callback = Callback(action: string, userId: int)

  /** Why decoding raises: the unpacking `action, user_id = ...` needs
      exactly two pieces; `int(user_id)` needs an integer. */
  datatype DecodeError = WrongPieceCount(pieces: nat) | NotAnInteger(text: string)

  /** `f"{action}:{userId}"`. */
  function Encode(action: string, userId: int): (data: string)
    ensures ':' !in action ==> Split(data, ':') == [action, FormatInt(userId)]
  {
    var data := action + [':'] + FormatInt(userId);
    assert ':' !in action ==> Split(data, ':') == [action, FormatInt(userId)] by {
      if ':' !in action {
        assert Join([action, FormatInt(userId)], ':') == data;
        SplitJoin([action, FormatInt(userId)], ':');
      }
    }
    data
  }

  /** `action, user_id = data.split(":")` followed by `int(user_id)`. */
  function Decode(data: string): (r: Result<Callback, DecodeError>)
    ensures r.Success? ==>
      var n := |r.value.action|;
      && n < |data| && data[..n] == r.value.action && data[n] == ':'
      && ':' !in r.value.action
      && ParseInt(data[n + 1..]) == Some(r.value.userId)
    ensures r.Failure? ==>
      r.error.WrongPieceCount? || (r.error.NotAnInteger? && ParseInt(r.error.text).None?)
  {
    var pieces := Split(data, ':');
    if |pieces| != 2 then Failure(WrongPieceCount(|pieces|))
    else
      assert Join(pieces[1..], ':') == pieces[1];
      assert data == pieces[0] + [':'] + pieces[1];
      assert data[|pieces[0]| + 1..] == pieces[1];
      match ParseInt(pieces[1])
      case None => Failure(NotAnInteger(pieces[1]))
      case Some(id) => Success(Callback(pieces[0], id))
  }

  /** Decoding what was encoded gives back the tag and the user id. */
  lemma DecodeEncode(action: string, userId: int)
    requires ':' !in action
    ensures Decode(Encode(action, userId)) == Success(Callback(action, userId))
  {
    var pieces := [action, FormatInt(userId)];
    SplitJoin(pieces, ':');
    ParseFormat(userId);
  }

  /** Any payload with one `:` whose second piece `int` accepts decodes,
      leading zeros included (`"approve:007"` gives 7). */
  lemma DecodeWellFormed(action: string, rest: string)
    requires ':' !in action && ParseInt(rest).Some?
    ensures Decode(action + [':'] + rest) == Success(Callback(action, ParseInt(rest).value))
  {
    assert Join([action, rest], ':') == action + [':'] + rest;
    SplitJoin([action, rest], ':');
  }

  /** The two payloads `utr_handler` attaches decode to their own tag. */
  lemma DecodeButtons(userId: int)
    ensures Decode(Encode(ApproveTag, userId)) == Success(Callback(ApproveTag, userId))
    ensures Decode(Encode(RejectTag, userId)) == Success(Callback(RejectTag, userId))
  {
    DecodeEncode(ApproveTag, userId);
    DecodeEncode(RejectTag, userId);
  }

  /** A payload with no `:` or with more than one raises at the unpacking. */
  lemma DecodeRejectsPieceCount(data: string)
    requires Count(data, ':') != 1
    ensures Decode(data) == Failure(WrongPieceCount(Count(data, ':') + 1))
  {
    SplitLength(data, ':');
  }
}
