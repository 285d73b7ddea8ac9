/** How `send_mail` reads its two list arguments: a string stands for a
    one-element list (`MailSendService.send_mail`), and the mail list is padded
    with a prefix of itself when there are more receivers than mails
    (`MailSendService.__mail_paths_add`). */
module Pairing {

  /** A Python argument annotated `Union[str, List[str]]`. */
  datatype StrOrList = Str(s: string) | List(items: seq<string>)

  /** `if type(x) == str: x = [x, ]` */
  function AsList(x: StrOrList): seq<string>
  {
    match x
    case Str(s) => [s]
    case List(items) => items
  }

  function Min(a: int, b: int): int
  {
    if a <= b then a else b
  }

  /** `__mail_paths_add`: when both arguments are lists and the receivers
      outnumber the mails, append `mails[0:shortage]`, which Python's slicing
      cuts off at the end of the list. */
  function MailPathsAdd(receivers: StrOrList, mails: StrOrList): (r: StrOrList)
    ensures mails.List? ==> r.List? && mails.items <= r.items
  {
    if receivers.List? && mails.List? && |receivers.items| > |mails.items| then
      var shortage := |receivers.items| - |mails.items|;
      List(mails.items + mails.items[..Min(shortage, |mails.items|)])
    else
      mails
  }

  /** Padding repeats the mail list cyclically: element `i` of the result is
      mail `i mod |mails|`, the original list is a prefix, and the length is
      `min(|receivers|, 2 * |mails|)`. */
  lemma {:induction false} PaddedCyclic(receivers: seq<string>, mails: seq<string>)
    requires |receivers| > |mails|
    ensures var r := MailPathsAdd(List(receivers), List(mails));
      r.List? && mails <= r.items &&
      |r.items| == Min(|receivers|, 2 * |mails|) &&
      forall i :: 0 <= i < |r.items| ==> r.items[i] == mails[i % |mails|]
  {
    var m := |mails|;
    var r := mails + mails[..Min(|receivers| - m, m)];
    forall i | 0 <= i < |r|
      ensures r[i] == mails[i % m]
    {
      if i < m {
        ModBelow(i, m);
      } else {
        ModOnce(i, m);
        assert r[i] == mails[i - m];
      }
    }
  }

  /** Without the padding case the mail argument is returned as it is. */
  lemma {:induction false} NotPadded(receivers: StrOrList, mails: StrOrList)
    requires !(receivers.List? && mails.List?) || |receivers.items| <= |mails.items|
    ensures MailPathsAdd(receivers, mails) == mails
  {
  }

  /** The padded list is as long as the receiver list exactly when there are at
      most twice as many receivers as mails; beyond that it stays shorter. */
  lemma {:induction false} PaddedReachesReceivers(receivers: seq<string>, mails: seq<string>)
    ensures var r := MailPathsAdd(List(receivers), List(mails)).items;
      |r| >= |receivers| <==> |receivers| <= 2 * |mails|
  {
    if |receivers| > |mails| {
      PaddedCyclic(receivers, mails);
    }
  }

  lemma {:induction false} ModBelow(j: nat, m: nat)
    requires j < m
    ensures j % m == j
  {
  }

  lemma {:induction false} ModOnce(i: nat, m: nat)
    requires m <= i < 2 * m
    ensures i % m == i - m
  {
  }

  lemma {:induction false} ModAtMost(j: nat, m: nat)
    requires m > 0
    ensures j % m <= j
  {
    if j >= m {
      ModAtMost(j - m, m);
    }
  }

  /** Round robin over `n` jobs reaches receiver index `rho` exactly when
      `rho < n`: with fewer jobs than receivers the tail of the receiver list
      is never addressed. */
  lemma {:induction false} RoundRobinReaches(receiverCount: nat, n: nat, rho: nat)
    requires rho < receiverCount
    ensures (exists j :: 0 <= j < n && j % receiverCount == rho) <==> rho < n
  {
    if rho < n {
      assert rho % receiverCount == rho;
    }
    if exists j :: 0 <= j < n && j % receiverCount == rho {
      var j :| 0 <= j < n && j % receiverCount == rho;
      ModAtMost(j, receiverCount);
    }
  }
}
