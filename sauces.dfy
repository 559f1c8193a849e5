/**
 The sauce controller of backend/controllers/sauce.js: the stored sauce
 documents, the `images/` directory, and the handlers that change them.

 The MongoDB collection is a map from sauce id to a `Sauce` object (a stored
 document, updated in place by `updateOne`); the image directory is a set of
 file names. Each handler is one sequential run of its steps, and every
 store and file-system call completes.
 */
module Sauces {
  import opened Wrappers
  import Reactions
  import ImageUrls

  type SauceId = string
  type Filename = string
  type UserId = Reactions.UserId

  /** The descriptive fields of a sauce; `userId` is the owner the delete check compares with. */
  datatype Attributes = Attributes(
    userId: UserId,
    name: string,
    manufacturer: string,
    description: string,
    mainPepper: string,
    heat: int)

  /** A sauce sent by a client: its fields and the `_id` it may carry, which the handlers never use. */
  datatype SauceObject = SauceObject(id: Option<SauceId>, attributes: Attributes)

  /** The HTTP outcome of a handler; `NoReply` when the handler sends no response at all. */
  datatype Status = Created | Ok | BadRequest | Unauthorized | ServerError | NoReply

  /**
   The helpers of middleware/sauceValidation, which is not part of this model:
   their rules are left open, the model only records where they are applied.
   */
  datatype Validators = Validators(
    validateFilename: Filename -> Filename,
    sauceDataValid: Attributes -> bool,
    heatValid: int -> bool)
  {
    /** Neither `sauceDataValid` nor `heatValid` throws. */
    predicate Accepts(a: Attributes) {
      sauceDataValid(a) && heatValid(a.heat)
    }

    /** The file `fs.unlink` removes for a recovered name; nothing when the name is undefined. */
    function Unlinked(name: Option<string>): set<Filename> {
      if name.Some? then {validateFilename(name.value)} else {}
    }
  }

  /** One stored sauce document. */
  class Sauce {
    var attributes: Attributes
    var imageUrl: string
    var likes: int
    var dislikes: int
    var usersLiked: seq<UserId>
    var usersDisliked: seq<UserId>

    /** The reaction fields of the document. */
    function Tally(): Reactions.Tally
      reads this
    {
      Reactions.Tally(likes, dislikes, usersLiked, usersDisliked)
    }

    /** `new sauceModels({...})` in createSauce: no likes, no dislikes, empty lists. */
    constructor (attributes: Attributes, imageUrl: string)
      ensures this.attributes == attributes && this.imageUrl == imageUrl
      ensures Tally() == Reactions.Empty && Reactions.Consistent(Tally())
    {
      this.attributes := attributes;
      this.imageUrl := imageUrl;
      likes, dislikes := 0, 0;
      usersLiked, usersDisliked := [], [];
    }

    /** like = 1; `updated` tells whether the controller issued its update. */
    method Like(u: UserId) returns (updated: bool)
      modifies this
      ensures updated == (u !in old(usersLiked))
      ensures Tally() == Reactions.Like(old(Tally()), u)
      ensures attributes == old(attributes) && imageUrl == old(imageUrl)
    {
      updated := u !in usersLiked;
      if updated {
        likes := likes + 1;
        usersLiked := usersLiked + [u];
      }
    }

    /** like = -1; `updated` tells whether the controller issued its update. */
    method Dislike(u: UserId) returns (updated: bool)
      modifies this
      ensures updated == (u !in old(usersDisliked))
      ensures Tally() == Reactions.Dislike(old(Tally()), u)
      ensures attributes == old(attributes) && imageUrl == old(imageUrl)
    {
      updated := u !in usersDisliked;
      if updated {
        dislikes := dislikes + 1;
        usersDisliked := usersDisliked + [u];
      }
    }

    /** like = 0: both membership tests are made before either update. */
    method Neutral(u: UserId) returns (updated: bool)
      modifies this
      ensures updated == (u in old(usersLiked) || u in old(usersDisliked))
      ensures Tally() == Reactions.Neutral(old(Tally()), u)
      ensures attributes == old(attributes) && imageUrl == old(imageUrl)
    {
      var liked, disliked := u in usersLiked, u in usersDisliked;
      if liked {
        likes := likes - 1;
        usersLiked := Reactions.Pull(usersLiked, u);
      }
      if disliked {
        dislikes := dislikes - 1;
        usersDisliked := Reactions.Pull(usersDisliked, u);
      }
      updated := liked || disliked;
    }

    /** `updateOne` with a sauce object: the fields it carries are set, the reactions are kept. */
    method Update(attributes: Attributes, newImageUrl: Option<string>)
      modifies this
      ensures this.attributes == attributes
      ensures imageUrl == if newImageUrl.Some? then newImageUrl.value else old(imageUrl)
      ensures Tally() == old(Tally())
    {
      this.attributes := attributes;
      if newImageUrl.Some? {
        imageUrl := newImageUrl.value;
      }
    }
  }

  /** The sauce collection and the `images/` directory beside it. */
  class SauceStore {
    var sauces: map<SauceId, Sauce>
    var images: set<Filename>
    const checks: Validators

    /** Distinct ids hold distinct documents. */
    ghost predicate Valid()
      reads this
    {
      forall i, j :: i in sauces && j in sauces && i != j ==> sauces[i] != sauces[j]
    }

    /** Every stored document's counters match its lists, without duplicates. */
    ghost predicate AllConsistent()
      reads this, sauces.Values
    {
      forall k :: k in sauces ==> Reactions.Consistent(sauces[k].Tally())
    }

    /** The document stored under `id`, as a frame. */
    ghost function Record(id: SauceId): set<Sauce>
      reads this
    {
      if id in sauces then {sauces[id]} else {}
    }

    constructor (checks: Validators, images: set<Filename>)
      ensures Valid() && AllConsistent()
      ensures sauces == map[] && this.images == images && this.checks == checks
    {
      this.checks := checks;
      this.images := images;
      sauces := map[];
    }

    /**
     createSauce. `newId` is the id the database assigns; a client's `_id` is
     dropped. Saving under an id already taken fails. The uploaded file is
     already in the directory; it is unlinked when the sauce part of the body
     is missing.
     */
    method CreateSauce(body: Option<SauceObject>, file: Option<Filename>, protocol: string, host: string, newId: SauceId)
      returns (status: Status)
      requires Valid()
      modifies this
      ensures Valid()
      ensures old(AllConsistent()) ==> AllConsistent()
      ensures file.None? ==> status == ServerError && sauces == old(sauces) && images == old(images)
      ensures file.Some? && body.None? ==>
        && status == BadRequest && sauces == old(sauces)
        && images == old(images) - {checks.validateFilename(file.value)}
      ensures file.Some? && body.Some? && newId in old(sauces) ==>
        status == BadRequest && sauces == old(sauces) && images == old(images)
      ensures file.Some? && body.Some? && newId !in old(sauces) ==>
        && status == Created && images == old(images)
        && newId in sauces && fresh(sauces[newId])
        && sauces == old(sauces)[newId := sauces[newId]]
        && sauces[newId].attributes == body.value.attributes
        && sauces[newId].imageUrl == ImageUrls.ImageUrl(protocol, host, checks.validateFilename(file.value))
        && sauces[newId].Tally() == Reactions.Empty
    {
      if file.None? {
        // `req.file.filename` throws before anything is unlinked or saved.
        return ServerError;
      }
      var name := checks.validateFilename(file.value);
      if body.None? {
        images := images - {name};
        return BadRequest;
      }
      var sauce := new Sauce(body.value.attributes, ImageUrls.ImageUrl(protocol, host, name));
      if newId in sauces {
        // `save()` rejects a duplicate key.
        return BadRequest;
      }
      sauces := sauces[newId := sauce];
      status := Created;
    }

    /**
     modifySauce with an uploaded file. A body the validators reject, or an
     id with no document (whose `imageUrl` cannot be read), ends with the new
     upload unlinked and nothing else touched. Otherwise the old image is
     unlinked, then the document takes the new fields and the new URL.
     */
    method ModifyWithFile(id: SauceId, body: SauceObject, file: Filename, protocol: string, host: string)
      returns (status: Status)
      requires Valid()
      modifies this, Record(id)
      ensures Valid() && sauces == old(sauces)
      ensures old(AllConsistent()) ==> AllConsistent()
      ensures !(checks.Accepts(body.attributes) && id in sauces) ==>
        && status == BadRequest
        && images == old(images) - {checks.validateFilename(file)}
        && (id in sauces ==> unchanged(sauces[id]))
      ensures checks.Accepts(body.attributes) && id in sauces ==>
        && status == Ok
        && images == old(images) - checks.Unlinked(ImageUrls.ExtractFilename(old(sauces[id].imageUrl)))
        && sauces[id].attributes == body.attributes
        && sauces[id].imageUrl == ImageUrls.ImageUrl(protocol, host, checks.validateFilename(file))
        && sauces[id].Tally() == old(sauces[id].Tally())
    {
      var newUrl := ImageUrls.ImageUrl(protocol, host, checks.validateFilename(file));
      if !checks.Accepts(body.attributes) || id !in sauces {
        images := images - {checks.validateFilename(file)};
        return BadRequest;
      }
      var sauce := sauces[id];
      images := images - checks.Unlinked(ImageUrls.ExtractFilename(sauce.imageUrl));
      sauce.Update(body.attributes, Some(newUrl));
      status := Ok;
    }

    /**
     modifySauce without a file, as intended: a body the validators accept
     sets the document's fields (an `updateOne` that matches no document
     changes nothing and still succeeds).
     */
    method ModifyWithoutFile(id: SauceId, body: SauceObject) returns (status: Status)
      requires Valid()
      modifies Record(id)
      ensures sauces == old(sauces) && images == old(images)
      ensures old(AllConsistent()) ==> AllConsistent()
      ensures !checks.Accepts(body.attributes) ==>
        status == BadRequest && (id in sauces ==> unchanged(sauces[id]))
      ensures checks.Accepts(body.attributes) ==>
        && status == Ok
        && (id in sauces ==>
              && sauces[id].attributes == body.attributes
              && sauces[id].imageUrl == old(sauces[id].imageUrl)
              && sauces[id].Tally() == old(sauces[id].Tally()))
    {
      if !checks.Accepts(body.attributes) {
        return BadRequest;
      }
      if id in sauces {
        sauces[id].Update(body.attributes, None);
      }
      status := Ok;
    }

    /**
     modifySauce without a file, as written: the update object names an
     undeclared `id`, which throws inside the `try`, so every such request
     ends in the `catch` with 400 and no update.
     */
    method ModifyWithoutFileAsWritten(id: SauceId, body: SauceObject) returns (status: Status)
      ensures status == BadRequest
    {
      status := BadRequest;
    }

    /**
     deleteSauce as intended: only the owner deletes; the image is unlinked
     first, then the document is removed. A missing document makes
     `sauce.userId` throw, which ends in the 500 handler.
     */
    method DeleteSauce(id: SauceId, requester: UserId) returns (status: Status)
      requires Valid()
      modifies this
      ensures Valid()
      ensures old(AllConsistent()) ==> AllConsistent()
      ensures id !in old(sauces) ==> status == ServerError && sauces == old(sauces) && images == old(images)
      ensures id in old(sauces) && old(sauces[id].attributes.userId) != requester ==>
        status == Unauthorized && sauces == old(sauces) && images == old(images)
      ensures id in old(sauces) && old(sauces[id].attributes.userId) == requester ==>
        && status == Ok
        && sauces == old(sauces) - {id}
        && images == old(images) - checks.Unlinked(ImageUrls.ExtractFilename(old(sauces[id].imageUrl)))
    {
      if id !in sauces {
        return ServerError;
      }
      var sauce := sauces[id];
      if sauce.attributes.userId != requester {
        return Unauthorized;
      }
      images := images - checks.Unlinked(ImageUrls.ExtractFilename(sauce.imageUrl));
      sauces := sauces - {id};
      status := Ok;
    }

    /**
     deleteSauce as written: a non-owner is answered 401 but, with no
     `return` after it, the image is unlinked and the document deleted all
     the same; the name is split on `/images`, so it keeps a leading slash.
     */
    method DeleteSauceAsWritten(id: SauceId, requester: UserId) returns (status: Status)
      requires Valid()
      modifies this
      ensures Valid()
      ensures old(AllConsistent()) ==> AllConsistent()
      ensures id !in old(sauces) ==> status == ServerError && sauces == old(sauces) && images == old(images)
      ensures id in old(sauces) ==>
        && status == (if old(sauces[id].attributes.userId) == requester then Ok else Unauthorized)
        && sauces == old(sauces) - {id}
        && images == old(images) - checks.Unlinked(ImageUrls.ExtractFilenameAsWritten(old(sauces[id].imageUrl)))
    {
      if id !in sauces {
        return ServerError;
      }
      var sauce := sauces[id];
      status := if sauce.attributes.userId != requester then Unauthorized else Ok;
      images := images - checks.Unlinked(ImageUrls.ExtractFilenameAsWritten(sauce.imageUrl));
      sauces := sauces - {id};
    }

    /**
     likesAndDislikes. A `like` outside {1, -1, 0} returns from the switch
     without a response; for the other values a missing document makes the
     membership test throw, which ends in the 500 handler. The handler
     answers 200 exactly when an update passed its membership guard.
     */
    method LikesAndDislikes(id: SauceId, u: UserId, like: int) returns (status: Status)
      requires Valid()
      modifies Record(id)
      ensures sauces == old(sauces) && images == old(images)
      ensures old(AllConsistent()) ==> AllConsistent()
      ensures id in sauces ==>
        && sauces[id].Tally() == Reactions.React(old(sauces[id].Tally()), u, like)
        && sauces[id].attributes == old(sauces[id].attributes)
        && sauces[id].imageUrl == old(sauces[id].imageUrl)
      ensures status ==
        if like != 1 && like != -1 && like != 0 then NoReply
        else if id !in sauces then ServerError
        else if Reactions.IssuesUpdate(old(sauces[id].Tally()), u, like) then Ok
        else NoReply
    {
      if like != 1 && like != -1 && like != 0 {
        return NoReply;
      }
      if id !in sauces {
        return ServerError;
      }
      var sauce := sauces[id];
      ghost var before := sauce.Tally();
      var updated;
      if like == 1 {
        updated := sauce.Like(u);
      } else if like == -1 {
        updated := sauce.Dislike(u);
      } else {
        updated := sauce.Neutral(u);
      }
      if Reactions.Consistent(before) {
        Reactions.ReactKeepsConsistent(before, u, like);
      }
      status := if updated then Ok else NoReply;
    }
  }

}
